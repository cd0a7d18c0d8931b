/**
 The detection log: from the lines of one capture to the detection time and the packets lost until failover.
 The loss is an arithmetic difference; the main result says which packets it counts.
 */
module DetectionLog {
  import opened Wrappers

  // ----- parsed lines

  /** A ping reply: the line it stands on, its sequence number, its TTL and its time in nanoseconds. */
  datatype Reply = Reply(line: int, sequence: int, ttl: int, at: int)

  datatype Summary = Summary(sent: int, received: int)

  /** The header's fields; a number that does not parse reads as absent. */
  datatype Fields = Fields(
    profile: Option<string>,
    detector: Option<string>,
    configuredMs: Option<int>,
    startedAt: Option<string>,
    configuration: Option<string>)
  {
    predicate Complete() {
      profile.Some? && detector.Some? && configuredMs.Some? && startedAt.Some? && configuration.Some?
    }
  }

  datatype Line =
    | Header(fields: Fields)
    | StateBegin(name: string)
    | StateEnd
    | Event(kind: string, epoch: Option<int>)
    | Capture(peerUp: Option<bool>, reply: Option<(int, int, int)>, summary: Option<Summary>)

  datatype Mark = Mark(line: int, epoch: int)

  datatype Reading = Reading(
    header: Option<Fields>,
    states: set<string>,
    marks: map<string, Mark>,
    replies: seq<Reply>,
    summary: Option<Summary>,
    peerUp: bool)

  // ----- what the line loop leaves

  function ReplyOf(i: int, l: Line): seq<Reply> {
    if l.Capture? && l.reply.Some? then [Reply(i, l.reply.value.0, l.reply.value.1, l.reply.value.2)] else []
  }

  function Replies(lines: seq<Line>): seq<Reply> {
    if lines == [] then [] else Replies(lines[..|lines| - 1]) + ReplyOf(|lines| - 1, lines[|lines| - 1])
  }

  predicate Marks(l: Line, kind: string) {
    l.Event? && l.kind == kind && kind != "" && l.epoch.Some?
  }

  /** The last line for which `p` holds. */
  ghost predicate IsLast(lines: seq<Line>, p: Line -> bool, i: int) {
    0 <= i < |lines| && p(lines[i]) && forall j | i < j < |lines| :: !p(lines[j])
  }

  ghost predicate Never(lines: seq<Line>, p: Line -> bool) {
    forall l | l in lines :: !p(l)
  }

  /** `epoch_ns` of each kind of event comes from its last line. */
  ghost predicate MarksRead(lines: seq<Line>, marks: map<string, Mark>) {
    forall kind :: MarkRead(lines, marks, kind)
  }

  ghost predicate MarkRead(lines: seq<Line>, marks: map<string, Mark>, kind: string) {
    if kind in marks then
      IsLast(lines, l => Marks(l, kind), marks[kind].line) && marks[kind].epoch == lines[marks[kind].line].epoch.value
    else Never(lines, l => Marks(l, kind))
  }

  ghost predicate HeaderRead(lines: seq<Line>, header: Option<Fields>) {
    match header
    case Some(fields) => exists i :: IsLast(lines, (l: Line) => l.Header?, i) && lines[i].fields == fields
    case None => Never(lines, (l: Line) => l.Header?)
  }

  ghost predicate SummaryRead(lines: seq<Line>, summary: Option<Summary>) {
    match summary
    case Some(_) =>
      exists i :: IsLast(lines, (l: Line) => l.Capture? && l.summary.Some?, i) && lines[i].summary == summary
    case None => Never(lines, (l: Line) => l.Capture? && l.summary.Some?)
  }

  /** The session counts as up when its last row says so. */
  ghost predicate PeerRead(lines: seq<Line>, up: bool) {
    up <==> exists i :: IsLast(lines, (l: Line) => l.Capture? && l.peerUp.Some?, i) && lines[i].peerUp == Some(true)
  }

  ghost predicate StatesRead(lines: seq<Line>, states: set<string>) {
    forall name :: name in states <==> name != "" && StateBegin(name) in lines
  }

  ghost predicate ReadsAll(lines: seq<Line>, r: Reading) {
    && HeaderRead(lines, r.header) && StatesRead(lines, r.states) && MarksRead(lines, r.marks)
    && r.replies == Replies(lines) && SummaryRead(lines, r.summary) && PeerRead(lines, r.peerUp)
  }

  // ----- the line loop

  function Update(r: Reading, i: int, l: Line): Reading {
    match l
    case Header(fields) => r.(header := Some(fields))
    case StateBegin(name) => if name != "" then r.(states := r.states + {name}) else r
    case StateEnd => r
    case Event(kind, epoch) =>
      if kind != "" && epoch.Some? then r.(marks := r.marks[kind := Mark(i, epoch.value)]) else r
    case Capture(peerUp, reply, summary) =>
      r.(peerUp := if peerUp.Some? then peerUp.value else r.peerUp,
         replies := r.replies + ReplyOf(i, l),
         summary := if summary.Some? then summary else r.summary)
  }

  lemma LastExtends(lines: seq<Line>, p: Line -> bool, l: Line, i: int)
    ensures p(l) ==> IsLast(lines + [l], p, |lines|)
    ensures !p(l) ==> (IsLast(lines + [l], p, i) <==> IsLast(lines, p, i))
    ensures !p(l) && Never(lines, p) ==> Never(lines + [l], p)
  {
    var more := lines + [l];
    assert more[|lines|] == l && forall i | 0 <= i < |lines| :: more[i] == lines[i];
  }

  lemma HeaderStep(lines: seq<Line>, r: Reading, l: Line)
    requires HeaderRead(lines, r.header)
    ensures HeaderRead(lines + [l], Update(r, |lines|, l).header)
  {
    var p := (l: Line) => l.Header?;
    LastExtends(lines, p, l, 0);
    if !l.Header? && r.header.Some? {
      var i :| IsLast(lines, p, i) && lines[i].fields == r.header.value;
      LastExtends(lines, p, l, i);
      assert (lines + [l])[i] == lines[i];
    }
    assert (lines + [l])[|lines|] == l;
  }

  lemma SummaryStep(lines: seq<Line>, r: Reading, l: Line)
    requires SummaryRead(lines, r.summary)
    ensures SummaryRead(lines + [l], Update(r, |lines|, l).summary)
  {
    var p := (l: Line) => l.Capture? && l.summary.Some?;
    LastExtends(lines, p, l, 0);
    if !p(l) && r.summary.Some? {
      var i :| IsLast(lines, p, i) && lines[i].summary == r.summary;
      LastExtends(lines, p, l, i);
      assert (lines + [l])[i] == lines[i];
    }
    assert (lines + [l])[|lines|] == l;
  }

  lemma PeerStep(lines: seq<Line>, r: Reading, l: Line)
    requires PeerRead(lines, r.peerUp)
    ensures PeerRead(lines + [l], Update(r, |lines|, l).peerUp)
  {
    var p := (l: Line) => l.Capture? && l.peerUp.Some?;
    var more := lines + [l];
    assert more[|lines|] == l;
    LastExtends(lines, p, l, 0);
    forall i
      ensures !p(l) ==> (IsLast(more, p, i) <==> IsLast(lines, p, i)) && (IsLast(lines, p, i) ==> more[i] == lines[i])
    {
      LastExtends(lines, p, l, i);
    }
    forall i ensures p(l) && IsLast(more, p, i) ==> i == |lines| {
      if p(l) && IsLast(more, p, i) {
      }
    }
  }

  lemma MarkStep(lines: seq<Line>, r: Reading, l: Line, kind: string)
    requires MarkRead(lines, r.marks, kind)
    ensures MarkRead(lines + [l], Update(r, |lines|, l).marks, kind)
  {
    var p := l => Marks(l, kind);
    LastExtends(lines, p, l, if kind in r.marks then r.marks[kind].line else 0);
    assert (lines + [l])[|lines|] == l;
    if kind in r.marks {
      assert (lines + [l])[r.marks[kind].line] == lines[r.marks[kind].line];
    }
  }

  lemma ReadStep(lines: seq<Line>, r: Reading, l: Line)
    requires ReadsAll(lines, r)
    ensures ReadsAll(lines + [l], Update(r, |lines|, l))
  {
    HeaderStep(lines, r, l);
    SummaryStep(lines, r, l);
    PeerStep(lines, r, l);
    forall kind ensures MarkRead(lines + [l], Update(r, |lines|, l).marks, kind) {
      assert MarkRead(lines, r.marks, kind);
      MarkStep(lines, r, l, kind);
    }
    assert (lines + [l])[..|lines|] == lines;
  }

  method ReadLines(lines: seq<Line>) returns (r: Reading)
    ensures ReadsAll(lines, r)
  {
    r := Reading(None, {}, map[], [], None, false);
    assert ReadsAll([], r) by {
      assert forall kind :: MarkRead([], r.marks, kind);
    }
    for i := 0 to |lines|
      invariant ReadsAll(lines[..i], r)
    {
      ReadStep(lines[..i], r, lines[i]);
      assert lines[..i + 1] == lines[..i] + [lines[i]];
      r := Update(r, i, lines[i]);
    }
    assert lines[..|lines|] == lines;
  }

  // ----- replies around the fault

  function Before(replies: seq<Reply>, start: int): seq<Reply> {
    if replies == [] then []
    else
      var last := replies[|replies| - 1];
      Before(replies[..|replies| - 1], start) + if last.line < start then [last] else []
  }

  function During(replies: seq<Reply>, start: int, end: int): seq<Reply> {
    if replies == [] then []
    else
      var last := replies[|replies| - 1];
      During(replies[..|replies| - 1], start, end) + if start < last.line < end then [last] else []
  }

  function Ttls(replies: seq<Reply>): seq<int> {
    seq(|replies|, i requires 0 <= i < |replies| => replies[i].ttl)
  }

  // ----- the baseline TTL

  predicate FirstAt(s: seq<int>, x: int, k: int) {
    0 <= k < |s| && s[k] == x && x !in s[..k]
  }

  /** The most frequent value; among equally frequent ones, the first encountered. */
  ghost predicate IsMostCommon(s: seq<int>, x: int) {
    && x in s
    && (forall y | y in s :: multiset(s)[y] <= multiset(s)[x])
    && (forall y, k, j | FirstAt(s, x, k) && FirstAt(s, y, j) && j < k :: multiset(s)[y] < multiset(s)[x])
  }

  /** `Counter` keeps its keys in the order they are first encountered. */
  ghost predicate Counted(s: seq<int>, keys: seq<int>, counts: map<int, int>) {
    && SameValues(s, keys)
    && (forall x | x in s :: x in counts && counts[x] == multiset(s)[x])
    && (forall x | x in counts :: x in s)
    && FirstSeenOrder(s, keys)
  }

  ghost predicate FirstSeenOrder(s: seq<int>, keys: seq<int>) {
    forall a, b, k, j | 0 <= a < |keys| && 0 <= b < |keys| && FirstAt(s, keys[a], k) && FirstAt(s, keys[b], j)
        && j < k :: b < a
  }

  lemma {:induction false} FirstExists(s: seq<int>, x: int)
    requires x in s
    ensures exists k :: FirstAt(s, x, k)
  {
    var before, last := s[..|s| - 1], s[|s| - 1];
    assert s == before + [last];
    if x in before {
      FirstExists(before, x);
      var k :| FirstAt(before, x, k);
      assert s[..k] == before[..k];
      assert FirstAt(s, x, k);
    } else {
      assert FirstAt(s, x, |s| - 1);
    }
  }

  lemma FirstExtends(s: seq<int>, y: int, x: int, k: int)
    requires FirstAt(s + [y], x, k)
    ensures if k < |s| then FirstAt(s, x, k) else k == |s| && x == y && x !in s
  {
    if k < |s| {
      assert (s + [y])[..k] == s[..k];
    } else {
      assert (s + [y])[..k] == s;
    }
  }

  lemma CountStep(s: seq<int>, keys: seq<int>, counts: map<int, int>, y: int)
    requires Counted(s, keys, counts)
    ensures y in counts ==> Counted(s + [y], keys, counts[y := counts[y] + 1])
    ensures y !in counts ==> Counted(s + [y], keys + [y], counts[y := 1])
  {
    assert forall x :: x in s + [y] <==> x in s || x == y;
    assert forall x :: multiset(s + [y])[x] == multiset(s)[x] + if x == y then 1 else 0;
    OrderStep(s, keys, y);
  }

  lemma OrderStep(s: seq<int>, keys: seq<int>, y: int)
    requires FirstSeenOrder(s, keys) && SameValues(s, keys)
    ensures FirstSeenOrder(s + [y], if y in s then keys else keys + [y])
  {
    var more := if y in s then keys else keys + [y];
    forall a, b, k, j | 0 <= a < |more| && 0 <= b < |more| && FirstAt(s + [y], more[a], k)
        && FirstAt(s + [y], more[b], j) && j < k
      ensures b < a
    {
      FirstExtends(s, y, more[a], k);
      FirstExtends(s, y, more[b], j);
      if b < |keys| {
        assert more[b] == keys[b] && keys[b] in keys;
      }
      if a < |keys| {
        assert more[a] == keys[a] && keys[a] in keys;
      }
    }
  }

  predicate SameValues(s: seq<int>, keys: seq<int>) {
    (forall x | x in keys :: x in s) && (forall x | x in s :: x in keys)
  }

  lemma SameValuesFacts(s: seq<int>, keys: seq<int>)
    requires s != [] && SameValues(s, keys)
    ensures |keys| > 0 && forall a | 0 <= a < |keys| :: keys[a] in s
  {
    var first := s[0];
    assert first in s;
    forall a | 0 <= a < |keys| ensures keys[a] in s {
      var x := keys[a];
      assert x in keys;
    }
  }

  lemma CountedKeys(s: seq<int>, keys: seq<int>, counts: map<int, int>)
    requires s != [] && Counted(s, keys, counts)
    ensures |keys| > 0 && forall a | 0 <= a < |keys| :: keys[a] in counts
  {
    SameValuesFacts(s, keys);
    forall a | 0 <= a < |keys| ensures keys[a] in counts {
      var x := keys[a];
      assert x in s;
    }
  }

  method CountValues(s: seq<int>) returns (keys: seq<int>, counts: map<int, int>)
    ensures Counted(s, keys, counts)
  {
    keys, counts := [], map[];
    for i := 0 to |s|
      invariant Counted(s[..i], keys, counts)
    {
      CountStep(s[..i], keys, counts, s[i]);
      assert s[..i + 1] == s[..i] + [s[i]];
      if s[i] in counts {
        counts := counts[s[i] := counts[s[i]] + 1];
      } else {
        keys, counts := keys + [s[i]], counts[s[i] := 1];
      }
    }
    assert s[..|s|] == s;
  }

  /** `most_common(1)`: the first key with the largest count. */
  method MostCommon(s: seq<int>) returns (x: int)
    requires s != []
    ensures IsMostCommon(s, x)
  {
    var keys, counts := CountValues(s);
    CountedKeys(s, keys, counts);
    var best := 0;
    for i := 1 to |keys|
      invariant 0 <= best < i <= |keys|
      invariant forall a | 0 <= a < |keys| :: keys[a] in counts
      invariant forall a | 0 <= a < i :: counts[keys[a]] <= counts[keys[best]]
      invariant forall a | 0 <= a < best :: counts[keys[a]] < counts[keys[best]]
    {
      if counts[keys[i]] > counts[keys[best]] {
        best := i;
      }
    }
    x := keys[best];
  }

  lemma MostCommonIsUnique(s: seq<int>, x: int, y: int)
    requires IsMostCommon(s, x) && IsMostCommon(s, y)
    ensures x == y
  {
    FirstExists(s, x);
    FirstExists(s, y);
    var k, j :| FirstAt(s, x, k) && FirstAt(s, y, j);
  }

  // ----- the arithmetic

  /** `ms` is the smallest number of milliseconds that covers `delta` nanoseconds. */
  predicate IsCeilingMs(delta: int, ms: int) {
    (ms - 1) * 1_000_000 < delta <= ms * 1_000_000
  }

  ghost predicate IsFirstChanged(during: seq<Reply>, ttl: int, changed: Reply) {
    exists k :: 0 <= k < |during| && during[k] == changed && changed.ttl != ttl
        && forall j | 0 <= j < k :: during[j].ttl == ttl
  }

  /** The sequence numbers of the replies up to `bound`, in order. */
  function UpTo(during: seq<Reply>, bound: int): seq<int> {
    if during == [] then []
    else
      var last := during[|during| - 1];
      UpTo(during[..|during| - 1], bound) + if last.sequence <= bound then [last.sequence] else []
  }

  /** The loss as the program computes it. */
  function Loss(during: seq<Reply>, lastBefore: int, changed: int): int {
    changed - lastBefore - |UpTo(during, changed)|
  }

  // ----- what the loss counts

  /** The sequence numbers after `low`, up to and including `high`. */
  function Span(low: int, high: int): (r: set<int>)
    ensures forall n :: n in r <==> low < n <= high
    decreases high - low
  {
    if low < high then Span(low, high - 1) + {high} else {}
  }

  lemma {:induction false} SpanCount(low: int, high: int)
    requires low <= high
    ensures |Span(low, high)| == high - low
    decreases high - low
  {
    if low < high {
      SpanCount(low, high - 1);
    }
  }

  predicate Answered(during: seq<Reply>, n: int) {
    exists r :: r in during && r.sequence == n
  }

  /** The probes between the last reply before the fault and the first changed one that got no reply in between. */
  function Unanswered(during: seq<Reply>, lastBefore: int, changed: int): set<int> {
    set n | n in Span(lastBefore, changed) && !Answered(during, n)
  }

  lemma {:induction false} UpToContents(during: seq<Reply>, bound: int)
    ensures forall n :: n in UpTo(during, bound) <==> n <= bound && Answered(during, n)
  {
    if during != [] {
      var before, last := during[..|during| - 1], during[|during| - 1];
      UpToContents(before, bound);
      assert during == before + [last];
      assert forall r :: r in during <==> r in before || r == last;
      assert forall n :: Answered(during, n) <==> Answered(before, n) || n == last.sequence;
    }
  }

  function Beyond(s: seq<int>, low: int): set<int> {
    set n | n in s && low < n
  }

  predicate DistinctBeyond(s: seq<int>, low: int) {
    (forall n | n in s :: low < n) && forall i, j | 0 <= i < j < |s| :: s[i] != s[j]
  }

  lemma DistinctStep(s: seq<int>, last: int, low: int)
    ensures DistinctBeyond(s + [last], low) <==> DistinctBeyond(s, low) && low < last && last !in s
  {
    var more := s + [last];
    assert more[|s|] == last && forall i | 0 <= i < |s| :: more[i] == s[i];
    assert forall n :: n in more <==> n in s || n == last;
  }

  lemma BeyondStep(s: seq<int>, last: int, low: int)
    ensures Beyond(s + [last], low) == Beyond(s, low) + if low < last then {last} else {}
  {
    assert forall n :: n in s + [last] <==> n in s || n == last;
  }

  /** A list is as long as the set of its values above `low` exactly when all are above and none repeats. */
  lemma {:induction false} BeyondCount(s: seq<int>, low: int)
    ensures |Beyond(s, low)| <= |s| && (|Beyond(s, low)| == |s| <==> DistinctBeyond(s, low))
  {
    if s == [] {
      assert Beyond(s, low) == {};
    } else {
      var before, last := s[..|s| - 1], s[|s| - 1];
      BeyondCount(before, low);
      DistinctStep(before, last, low);
      BeyondStep(before, last, low);
      assert s == before + [last];
    }
  }

  /** No reply up to the changed one repeats a sequence number, or carries one from before the fault. */
  predicate CleanReplies(during: seq<Reply>, lastBefore: int, changed: int) {
    DistinctBeyond(UpTo(during, changed), lastBefore)
  }

  /**
   A reported loss never exceeds the number of unanswered probes, and equals it exactly when no reply up to
   the changed one repeats a sequence number or belongs before the fault.
   */
  lemma LossCountsUnanswered(during: seq<Reply>, lastBefore: int, changed: int)
    requires Loss(during, lastBefore, changed) >= 0
    ensures Loss(during, lastBefore, changed) <= |Unanswered(during, lastBefore, changed)|
    ensures Loss(during, lastBefore, changed) == |Unanswered(during, lastBefore, changed)|
            <==> CleanReplies(during, lastBefore, changed)
  {
    var s := UpTo(during, changed);
    SpanCount(lastBefore, changed);
    UpToContents(during, changed);
    BeyondCount(s, lastBefore);
    var span, answered := Span(lastBefore, changed), Beyond(s, lastBefore);
    assert answered <= span;
    assert Unanswered(during, lastBefore, changed) == span - answered;
    assert |span| == |span - answered| + |answered|;
  }

  predicate StrictlyIncreasing(replies: seq<Reply>) {
    forall i, j | 0 <= i < j < |replies| :: replies[i].sequence < replies[j].sequence
  }

  predicate OrderedLines(replies: seq<Reply>) {
    forall i, j | 0 <= i < j < |replies| :: replies[i].line < replies[j].line
  }

  lemma {:induction false} UpToAscends(during: seq<Reply>, bound: int)
    requires StrictlyIncreasing(during)
    ensures forall i, j | 0 <= i < j < |UpTo(during, bound)| :: UpTo(during, bound)[i] < UpTo(during, bound)[j]
  {
    if during != [] {
      var before, last := during[..|during| - 1], during[|during| - 1];
      UpToAscends(before, bound);
      UpToContents(before, bound);
      var kept := UpTo(before, bound);
      forall i | 0 <= i < |kept| ensures kept[i] < last.sequence {
        assert kept[i] in kept;
        var r :| r in before && r.sequence == kept[i];
        var k :| 0 <= k < |before| && before[k] == r;
        assert during[k] == r;
      }
    }
  }

  lemma {:induction false} DuringHolds(replies: seq<Reply>, start: int, end: int, r: Reply)
    ensures r in During(replies, start, end) <==> r in replies && start < r.line < end
  {
    if replies != [] {
      var before, last := replies[..|replies| - 1], replies[|replies| - 1];
      DuringHolds(before, start, end, r);
      assert replies == before + [last];
    }
  }

  lemma {:induction false} DuringIncreases(replies: seq<Reply>, start: int, end: int)
    requires StrictlyIncreasing(replies)
    ensures StrictlyIncreasing(During(replies, start, end))
  {
    if replies != [] {
      var before, last := replies[..|replies| - 1], replies[|replies| - 1];
      assert StrictlyIncreasing(before);
      DuringIncreases(before, start, end);
      var kept := During(before, start, end);
      forall i | 0 <= i < |kept| ensures kept[i].sequence < last.sequence {
        var r := kept[i];
        DuringHolds(before, start, end, r);
        var k :| 0 <= k < |before| && before[k] == r;
        assert replies[k] == r;
      }
    }
  }

  lemma {:induction false} BeforeHolds(replies: seq<Reply>, start: int, r: Reply)
    ensures r in Before(replies, start) <==> r in replies && r.line < start
  {
    if replies != [] {
      var before, last := replies[..|replies| - 1], replies[|replies| - 1];
      BeforeHolds(before, start, r);
      assert replies == before + [last];
    }
  }

  lemma {:induction false} BeforeIsOrdered(replies: seq<Reply>, start: int)
    requires OrderedLines(replies)
    ensures OrderedLines(Before(replies, start))
  {
    if replies != [] {
      var before, last := replies[..|replies| - 1], replies[|replies| - 1];
      assert OrderedLines(before);
      BeforeIsOrdered(before, start);
      var kept := Before(before, start);
      forall i | 0 <= i < |kept| ensures kept[i].line < last.line {
        var r := kept[i];
        BeforeHolds(before, start, r);
        var k :| 0 <= k < |before| && before[k] == r;
        assert replies[k] == r;
      }
    }
  }

  /** Replies appear in the order of their lines. */
  lemma {:induction false} RepliesAreOrdered(lines: seq<Line>)
    ensures OrderedLines(Replies(lines))
  {
    if lines != [] {
      RepliesAreOrdered(lines[..|lines| - 1]);
      var before := Replies(lines[..|lines| - 1]);
      forall i | 0 <= i < |before| ensures before[i].line < |lines| - 1 {
        RepliesStandOnLines(lines[..|lines| - 1], before[i]);
      }
    }
  }

  lemma {:induction false} RepliesStandOnLines(lines: seq<Line>, r: Reply)
    requires r in Replies(lines)
    ensures 0 <= r.line < |lines| && lines[r.line].Capture?
  {
    if r in Replies(lines[..|lines| - 1]) {
      RepliesStandOnLines(lines[..|lines| - 1], r);
    }
  }

  /** The last reply before the fault has the largest sequence number of those before it. */
  lemma LastBeforeIsLargest(replies: seq<Reply>, start: int, r: Reply)
    requires OrderedLines(replies) && StrictlyIncreasing(replies) && Before(replies, start) != []
    requires r in replies
    ensures var last := Before(replies, start)[|Before(replies, start)| - 1];
            last in replies && last.line < start && (r.line < start <==> r.sequence <= last.sequence)
  {
    BeforeIsOrdered(replies, start);
    var before := Before(replies, start);
    var last := before[|before| - 1];
    BeforeHolds(replies, start, last);
    BeforeHolds(replies, start, r);
    assert last in before;
    var k, m :| 0 <= k < |replies| && replies[k] == r && 0 <= m < |replies| && replies[m] == last;
    if r.line < start {
      assert r in before;
      var j :| 0 <= j < |before| && before[j] == r;
      assert r == last || r.line < last.line;
    }
  }

  /** The probes after the last pre-fault reply, up to the changed one, that the capture holds no reply for at all. */
  function NeverAnswered(replies: seq<Reply>, lastBefore: int, changed: int): set<int> {
    set n | n in Span(lastBefore, changed) && !Answered(replies, n)
  }

  /** With strictly increasing sequence numbers the loss is the number of probes that got no reply. */
  lemma IncreasingLossIsExact(replies: seq<Reply>, start: int, end: int, changed: Reply)
    requires OrderedLines(replies) && StrictlyIncreasing(replies) && forall r | r in replies :: r.line != start
    requires Before(replies, start) != [] && changed in During(replies, start, end)
    ensures var lastBefore := Before(replies, start)[|Before(replies, start)| - 1].sequence;
            var loss := Loss(During(replies, start, end), lastBefore, changed.sequence);
            loss >= 0 && loss == |NeverAnswered(replies, lastBefore, changed.sequence)|
  {
    var during := During(replies, start, end);
    var lastBefore := Before(replies, start)[|Before(replies, start)| - 1].sequence;
    DuringIncreases(replies, start, end);
    DuringHolds(replies, start, end, changed);
    forall r | r in during ensures lastBefore < r.sequence {
      DuringHolds(replies, start, end, r);
      LastBeforeIsLargest(replies, start, r);
    }
    UpToAscends(during, changed.sequence);
    UpToContents(during, changed.sequence);
    assert CleanReplies(during, lastBefore, changed.sequence);
    LossIsNonnegative(during, lastBefore, changed.sequence);
    LossCountsUnanswered(during, lastBefore, changed.sequence);
    SameAnswers(replies, start, end, changed, lastBefore);
  }

  lemma LossIsNonnegative(during: seq<Reply>, lastBefore: int, changed: int)
    requires lastBefore <= changed && CleanReplies(during, lastBefore, changed)
    ensures Loss(during, lastBefore, changed) >= 0
  {
    var s := UpTo(during, changed);
    BeyondCount(s, lastBefore);
    UpToContents(during, changed);
    SpanCount(lastBefore, changed);
    var span, answered := Span(lastBefore, changed), Beyond(s, lastBefore);
    assert answered <= span;
    assert |span| == |span - answered| + |answered|;
  }

  lemma SameAnswers(replies: seq<Reply>, start: int, end: int, changed: Reply, lastBefore: int)
    requires OrderedLines(replies) && StrictlyIncreasing(replies) && forall r | r in replies :: r.line != start
    requires Before(replies, start) != [] && changed in During(replies, start, end)
    requires lastBefore == Before(replies, start)[|Before(replies, start)| - 1].sequence
    ensures Unanswered(During(replies, start, end), lastBefore, changed.sequence)
              == NeverAnswered(replies, lastBefore, changed.sequence)
  {
    forall n | n in Span(lastBefore, changed.sequence)
      ensures Answered(During(replies, start, end), n) <==> Answered(replies, n)
    {
      if r :| r in During(replies, start, end) && r.sequence == n {
        DuringHolds(replies, start, end, r);
      }
      if r :| r in replies && r.sequence == n {
        AnswersFallWithin(replies, start, end, changed, lastBefore, r);
      }
    }
  }

  lemma AnswersFallWithin(replies: seq<Reply>, start: int, end: int, changed: Reply, lastBefore: int, r: Reply)
    requires OrderedLines(replies) && StrictlyIncreasing(replies) && r.line != start
    requires Before(replies, start) != [] && changed in During(replies, start, end)
    requires lastBefore == Before(replies, start)[|Before(replies, start)| - 1].sequence
    requires r in replies && lastBefore < r.sequence <= changed.sequence
    ensures r in During(replies, start, end)
  {
    DuringHolds(replies, start, end, changed);
    DuringHolds(replies, start, end, r);
    LastBeforeIsLargest(replies, start, r);
    var k, m :| 0 <= k < |replies| && replies[k] == r && 0 <= m < |replies| && replies[m] == changed;
    assert k <= m;
  }

  lemma UpToStep(during: seq<Reply>, r: Reply, bound: int)
    ensures UpTo(during + [r], bound) == UpTo(during, bound) + if r.sequence <= bound then [r.sequence] else []
  {
    assert (during + [r])[..|during|] == during;
  }

  lemma DuplicatedLoss(a: Reply, b: Reply, c: Reply)
    requires a.sequence == b.sequence == 12 && c.sequence == 14
    ensures Loss([a, b, c], 10, 14) == 1
  {
    UpToStep([], a, 14);
    UpToStep([a], b, 14);
    UpToStep([a, b], c, 14);
    assert [] + [a] == [a] && [a] + [b] == [a, b] && [a, b] + [c] == [a, b, c];
  }

  // ----- the parse

  datatype LogError = Incomplete | NoSamplesAround | NoTransition | ChangeBeforeFault | NotMonotonic | MissingField

  datatype Report = Report(
    header: Fields,
    peerUp: bool,
    detectionMs: int,
    lost: int,
    summary: Summary,
    faultAt: int,
    changed: Reply)

  const START := "blackhole_start"
  const END := "blackhole_end"

  predicate IsComplete(r: Reading) {
    && r.header.Some? && "baseline" in r.states && "failover" in r.states
    && START in r.marks && END in r.marks && r.summary.Some? && r.replies != []
  }

  ghost predicate HasMark(lines: seq<Line>, kind: string) {
    exists epoch: int :: Event(kind, Some(epoch)) in lines
  }

  /** A capture is complete exactly when it has every kind of line the report is made from. */
  lemma CompleteCaptureMeans(lines: seq<Line>, r: Reading)
    requires ReadsAll(lines, r)
    ensures IsComplete(r) <==>
            && (exists l :: l in lines && l.Header?)
            && StateBegin("baseline") in lines && StateBegin("failover") in lines
            && HasMark(lines, "blackhole_start") && HasMark(lines, "blackhole_end")
            && (exists l :: l in lines && l.Capture? && l.summary.Some?)
            && (exists l :: l in lines && l.Capture? && l.reply.Some?)
    ensures IsComplete(r) ==>
              (r.header.value.Complete() <==>
                None !in {r.header.value.profile, r.header.value.detector, r.header.value.startedAt}
                && r.header.value.configuration != None && r.header.value.configuredMs != None)
  {
    MarkMeans(lines, r.marks, START);
    MarkMeans(lines, r.marks, END);
    HeaderMeans(lines, r.header);
    SummaryMeans(lines, r.summary);
    RepliesMean(lines);
    assert StateBegin("baseline") in lines <==> "baseline" in r.states;
    assert StateBegin("failover") in lines <==> "failover" in r.states;
  }

  lemma HeaderMeans(lines: seq<Line>, header: Option<Fields>)
    requires HeaderRead(lines, header)
    ensures header.Some? <==> exists l :: l in lines && l.Header?
  {
    if header.Some? {
      var i :| IsLast(lines, (l: Line) => l.Header?, i) && lines[i].fields == header.value;
      assert lines[i] in lines;
    }
  }

  lemma SummaryMeans(lines: seq<Line>, summary: Option<Summary>)
    requires SummaryRead(lines, summary)
    ensures summary.Some? <==> exists l :: l in lines && l.Capture? && l.summary.Some?
  {
    if summary.Some? {
      var i :| IsLast(lines, (l: Line) => l.Capture? && l.summary.Some?, i) && lines[i].summary == summary;
      assert lines[i] in lines;
    }
  }

  lemma MarkMeans(lines: seq<Line>, marks: map<string, Mark>, kind: string)
    requires MarksRead(lines, marks) && kind != ""
    ensures kind in marks <==> HasMark(lines, kind)
  {
    assert MarkRead(lines, marks, kind);
    if kind in marks {
      var l := lines[marks[kind].line];
      assert l == Event(kind, Some(l.epoch.value)) && l in lines;
    }
    if epoch: int :| Event(kind, Some(epoch)) in lines {
      assert Marks(Event(kind, Some(epoch)), kind);
    }
  }

  lemma {:induction false} RepliesMean(lines: seq<Line>)
    ensures Replies(lines) != [] <==> exists l :: l in lines && l.Capture? && l.reply.Some?
  {
    if lines != [] {
      RepliesMean(lines[..|lines| - 1]);
      assert lines == lines[..|lines| - 1] + [lines[|lines| - 1]];
    }
  }

  /** The replies before the fault, those during it, and what they show. */
  ghost predicate Shows(r: Reading, ttl: int, changed: Reply)
    requires IsComplete(r)
  {
    var start, end := r.marks[START].line, r.marks[END].line;
    && Before(r.replies, start) != []
    && IsMostCommon(Ttls(Before(r.replies, start)), ttl)
    && IsFirstChanged(During(r.replies, start, end), ttl, changed)
  }

  function LastBefore(r: Reading): int
    requires IsComplete(r) && Before(r.replies, r.marks[START].line) != []
  {
    var before := Before(r.replies, r.marks[START].line);
    before[|before| - 1].sequence
  }

  function LossOf(r: Reading, changed: Reply): int
    requires IsComplete(r) && Before(r.replies, r.marks[START].line) != []
  {
    Loss(During(r.replies, r.marks[START].line, r.marks[END].line), LastBefore(r), changed.sequence)
  }

  ghost predicate Reports(r: Reading, report: Report) {
    && IsComplete(r) && report.header == r.header.value && report.header.Complete() && report.peerUp == r.peerUp
       && Some(report.summary) == r.summary
    && report.faultAt == r.marks[START].epoch && report.changed.at >= report.faultAt
    && (exists ttl :: Shows(r, ttl, report.changed))
    && IsCeilingMs(report.changed.at - report.faultAt, report.detectionMs)
    && report.lost == LossOf(r, report.changed) >= 0
  }

  method FindChanged(during: seq<Reply>, ttl: int) returns (changed: Option<Reply>)
    ensures changed.Some? ==> IsFirstChanged(during, ttl, changed.value)
    ensures changed.None? ==> forall c :: !IsFirstChanged(during, ttl, c)
  {
    for i := 0 to |during|
      invariant forall j | 0 <= j < i :: during[j].ttl == ttl
    {
      if during[i].ttl != ttl {
        return Some(during[i]);
      }
    }
    return None;
  }

  /** The capture passes every check of the parser. */
  ghost predicate IsMeasurable(r: Reading) {
    IsComplete(r) && exists ttl, changed :: Measures(r, ttl, changed)
  }

  /** The checks made on the changed reply, and on the header whose fields are reported. */
  predicate Accepted(r: Reading, changed: Reply)
    requires IsComplete(r) && Before(r.replies, r.marks[START].line) != []
  {
    changed.at >= r.marks[START].epoch && LossOf(r, changed) >= 0 && r.header.value.Complete()
  }

  ghost predicate Measures(r: Reading, ttl: int, changed: Reply)
    requires IsComplete(r)
  {
    Shows(r, ttl, changed) && Accepted(r, changed)
  }

  lemma ShownIsUnique(r: Reading, ttl: int, changed: Reply, u: int, other: Reply)
    requires IsComplete(r) && Shows(r, ttl, changed) && Shows(r, u, other)
    ensures ttl == u && changed == other
  {
    MostCommonIsUnique(Ttls(Before(r.replies, r.marks[START].line)), ttl, u);
  }

  method Evaluate(r: Reading) returns (result: Result<Report, LogError>)
    ensures result.Success? <==> IsMeasurable(r)
    ensures result.Success? ==> Reports(r, result.value)
  {
    if !IsComplete(r) {
      return Failure(Incomplete);
    }
    var start, end := r.marks[START].line, r.marks[END].line;
    var before, during := Before(r.replies, start), During(r.replies, start, end);
    if before == [] || during == [] {
      return Failure(NoSamplesAround);
    }
    var ttl := MostCommon(Ttls(before));
    var changed := FindChanged(during, ttl);
    if changed.None? {
      NothingShown(r, ttl);
      return Failure(NoTransition);
    }
    OnlyThisMeasures(r, ttl, changed.value);
    var delta := changed.value.at - r.marks[START].epoch;
    if delta < 0 {
      return Failure(ChangeBeforeFault);
    }
    var lost := changed.value.sequence - before[|before| - 1].sequence - |UpTo(during, changed.value.sequence)|;
    if lost < 0 {
      return Failure(NotMonotonic);
    }
    if !r.header.value.Complete() {
      return Failure(MissingField);
    }
    assert Measures(r, ttl, changed.value);
    return Success(Report(r.header.value, r.peerUp, (delta + 999_999) / 1_000_000, lost, r.summary.value,
                          r.marks[START].epoch, changed.value));
  }

  lemma NothingShown(r: Reading, ttl: int)
    requires IsComplete(r) && IsMostCommon(Ttls(Before(r.replies, r.marks[START].line)), ttl)
    requires forall c :: !IsFirstChanged(During(r.replies, r.marks[START].line, r.marks[END].line), ttl, c)
    ensures !IsMeasurable(r)
  {
    if u, c :| Measures(r, u, c) {
      MostCommonIsUnique(Ttls(Before(r.replies, r.marks[START].line)), ttl, u);
    }
  }

  lemma OnlyThisMeasures(r: Reading, ttl: int, changed: Reply)
    requires IsComplete(r) && Shows(r, ttl, changed)
    ensures IsMeasurable(r) <==> Accepted(r, changed)
  {
    assert Accepted(r, changed) ==> Measures(r, ttl, changed);
    if u, c :| Measures(r, u, c) {
      ShownIsUnique(r, ttl, changed, u, c);
    }
  }

  /** The reading of a capture is determined by its lines. */
  lemma ReadingIsUnique(lines: seq<Line>, r: Reading, s: Reading)
    requires ReadsAll(lines, r) && ReadsAll(lines, s)
    ensures r == s
  {
    assert r.states == s.states;
    forall kind ensures kind in r.marks <==> kind in s.marks
      ensures kind in r.marks ==> r.marks[kind] == s.marks[kind]
    {
      SameMark(lines, r.marks, s.marks, kind);
    }
    assert r.marks == s.marks;
    SameHeader(lines, r.header, s.header);
    SameSummary(lines, r.summary, s.summary);
  }

  lemma SameMark(lines: seq<Line>, a: map<string, Mark>, b: map<string, Mark>, kind: string)
    requires MarkRead(lines, a, kind) && MarkRead(lines, b, kind)
    ensures kind in a <==> kind in b
    ensures kind in a ==> a[kind] == b[kind]
  {
    if kind in a {
      assert lines[a[kind].line] in lines;
    }
    if kind in b {
      assert lines[b[kind].line] in lines;
    }
  }

  lemma SameHeader(lines: seq<Line>, a: Option<Fields>, b: Option<Fields>)
    requires HeaderRead(lines, a) && HeaderRead(lines, b)
    ensures a == b
  {
    assert forall i | 0 <= i < |lines| :: lines[i] in lines;
  }

  lemma SameSummary(lines: seq<Line>, a: Option<Summary>, b: Option<Summary>)
    requires SummaryRead(lines, a) && SummaryRead(lines, b)
    ensures a == b
  {
    assert forall i | 0 <= i < |lines| :: lines[i] in lines;
  }

  ghost predicate Parses(lines: seq<Line>, r: Reading, result: Result<Report, LogError>) {
    && ReadsAll(lines, r)
    && (result.Success? <==> IsMeasurable(r))
    && (result.Success? ==> Reports(r, result.value))
  }

  /** The parser succeeds exactly on the captures that can be measured. */
  method ParseDetectionLog(lines: seq<Line>) returns (result: Result<Report, LogError>)
    ensures exists r :: Parses(lines, r, result)
  {
    var reading := ReadLines(lines);
    result := Evaluate(reading);
    assert Parses(lines, reading, result);
  }

  lemma FaultLineIsNoReply(lines: seq<Line>, r: Reading)
    requires MarksRead(lines, r.marks) && START in r.marks && r.replies == Replies(lines)
    ensures forall reply | reply in r.replies :: reply.line != r.marks[START].line
  {
    assert MarkRead(lines, r.marks, START);
    forall reply | reply in r.replies ensures reply.line != r.marks[START].line {
      RepliesStandOnLines(lines, reply);
    }
  }

  /** A successful report on a capture with strictly increasing sequence numbers counts the probes never answered. */
  lemma ReportedLossIsExact(lines: seq<Line>, r: Reading, report: Report)
    requires ReadsAll(lines, r) && Reports(r, report) && StrictlyIncreasing(r.replies)
    ensures report.lost == |NeverAnswered(r.replies, LastBefore(r), report.changed.sequence)|
  {
    RepliesAreOrdered(lines);
    FaultLineIsNoReply(lines, r);
    IncreasingLossIsExact(r.replies, r.marks[START].line, r.marks[END].line, report.changed);
  }

  /** On any capture the reported loss is a lower bound, and exact exactly when the replies are clean. */
  lemma ReportedLossIsLowerBound(r: Reading, report: Report)
    requires Reports(r, report)
    ensures var during := During(r.replies, r.marks[START].line, r.marks[END].line);
            var unanswered := Unanswered(during, LastBefore(r), report.changed.sequence);
            && report.lost <= |unanswered|
            && (report.lost == |unanswered| <==> CleanReplies(during, LastBefore(r), report.changed.sequence))
  {
    LossCountsUnanswered(During(r.replies, r.marks[START].line, r.marks[END].line), LastBefore(r),
                         report.changed.sequence);
  }
  // ----- a capture whose report hides a loss

  const HEADER := Fields(Some("bfd-100x3"), Some("bfd"), Some(300), Some("2026-01-01T00:00:00Z"), Some("00"))

  function ReplyLine(sequence: int, ttl: int, at: int): Line {
    Capture(None, Some((sequence, ttl, at)), None)
  }

  /** Of the probes 10 to 14, those numbered 11 and 13 are lost, and 12 is answered twice. */
  const DUPLICATED: seq<Line> :=
    [Header(HEADER), StateBegin("baseline"), StateBegin("failover"), ReplyLine(10, 64, 0), Event(START, Some(1)),
     ReplyLine(12, 64, 2), ReplyLine(12, 64, 3), ReplyLine(14, 63, 4), Event(END, Some(5)),
     Capture(None, None, Some(Summary(5, 4)))]

  const DUPLICATED_REPLIES := [Reply(3, 10, 64, 0), Reply(5, 12, 64, 2), Reply(6, 12, 64, 3), Reply(7, 14, 63, 4)]

  const DUPLICATED_READING :=
    Reading(Some(HEADER), {"baseline", "failover"}, map[START := Mark(4, 1), END := Mark(8, 5)],
            DUPLICATED_REPLIES, Some(Summary(5, 4)), false)

  lemma DuplicatedStates()
    ensures HeaderRead(DUPLICATED, DUPLICATED_READING.header)
    ensures StatesRead(DUPLICATED, DUPLICATED_READING.states)
  {
    assert IsLast(DUPLICATED, (l: Line) => l.Header?, 0);
    assert DUPLICATED[1] == StateBegin("baseline") && DUPLICATED[2] == StateBegin("failover");
  }

  lemma DuplicatedSummary()
    ensures SummaryRead(DUPLICATED, DUPLICATED_READING.summary) && PeerRead(DUPLICATED, DUPLICATED_READING.peerUp)
  {
    assert IsLast(DUPLICATED, (l: Line) => l.Capture? && l.summary.Some?, 9);
  }

  lemma DuplicatedMarks()
    ensures MarksRead(DUPLICATED, DUPLICATED_READING.marks)
  {
    assert START[10] != END[10];
    forall kind ensures MarkRead(DUPLICATED, DUPLICATED_READING.marks, kind) {
      if kind == START {
        assert IsLast(DUPLICATED, l => Marks(l, kind), 4);
      } else if kind == END {
        assert IsLast(DUPLICATED, l => Marks(l, kind), 8);
      }
    }
  }

  lemma RepliesStep(lines: seq<Line>, l: Line)
    ensures Replies(lines + [l]) == Replies(lines) + ReplyOf(|lines|, l)
  {
    assert (lines + [l])[..|lines|] == lines;
  }

  lemma PrefixReplies(lines: seq<Line>, i: nat)
    requires i < |lines|
    ensures Replies(lines[..i + 1]) == Replies(lines[..i]) + ReplyOf(i, lines[i])
  {
    RepliesStep(lines[..i], lines[i]);
    assert lines[..i + 1] == lines[..i] + [lines[i]];
  }

  lemma {:induction false} NoReplies(lines: seq<Line>, i: nat, j: nat)
    requires i <= j <= |lines| && forall k | i <= k < j :: ReplyOf(k, lines[k]) == []
    ensures Replies(lines[..j]) == Replies(lines[..i])
  {
    if i < j {
      NoReplies(lines, i, j - 1);
      PrefixReplies(lines, j - 1);
    }
  }

  /** Of the lines from `i` on, up to `j`, only line `k` is a reply. */
  lemma OneReply(lines: seq<Line>, i: nat, k: nat, j: nat, before: seq<Reply>, r: Reply)
    requires i <= k < j <= |lines| && ReplyOf(k, lines[k]) == [r] && Replies(lines[..i]) == before
    requires forall l | i <= l < j && l != k :: ReplyOf(l, lines[l]) == []
    ensures Replies(lines[..j]) == before + [r]
  {
    NoReplies(lines, i, k);
    PrefixReplies(lines, k);
    NoReplies(lines, k + 1, j);
  }

  lemma DuplicatedReplies()
    ensures Replies(DUPLICATED) == DUPLICATED_REPLIES
  {
    var lines := DUPLICATED;
    var a, b, c, d := DUPLICATED_REPLIES[0], DUPLICATED_REPLIES[1], DUPLICATED_REPLIES[2], DUPLICATED_REPLIES[3];
    assert lines[..0] == [];
    OneReply(lines, 0, 3, 5, [], a);
    OneReply(lines, 5, 5, 6, [] + [a], b);
    OneReply(lines, 6, 6, 7, [] + [a] + [b], c);
    OneReply(lines, 7, 7, 10, [] + [a] + [b] + [c], d);
    assert lines[..10] == lines && [] + [a] + [b] + [c] + [d] == DUPLICATED_REPLIES;
  }

  lemma SampleSteps(replies: seq<Reply>, r: Reply, start: int, end: int)
    ensures Before(replies + [r], start) == Before(replies, start) + if r.line < start then [r] else []
    ensures During(replies + [r], start, end) == During(replies, start, end) + if start < r.line < end then [r] else []
  {
    assert (replies + [r])[..|replies|] == replies;
  }

  lemma DuplicatedSamples()
    ensures Before(DUPLICATED_REPLIES, 4) == [Reply(3, 10, 64, 0)]
    ensures During(DUPLICATED_REPLIES, 4, 8) == [Reply(5, 12, 64, 2), Reply(6, 12, 64, 3), Reply(7, 14, 63, 4)]
  {
    var a, b, c, d := Reply(3, 10, 64, 0), Reply(5, 12, 64, 2), Reply(6, 12, 64, 3), Reply(7, 14, 63, 4);
    SampleSteps([], a, 4, 8);
    SampleSteps([a], b, 4, 8);
    SampleSteps([a, b], c, 4, 8);
    SampleSteps([a, b, c], d, 4, 8);
    assert [] + [a] == [a] && [a] + [b] == [a, b] && [a, b] + [c] == [a, b, c] && [a, b, c] + [d] == DUPLICATED_REPLIES;
  }

  lemma DuplicatedUnanswered()
    ensures NeverAnswered(DUPLICATED_REPLIES, 10, 14) == {11, 13}
  {
    var replies := DUPLICATED_REPLIES;
    assert replies[1] in replies && replies[3] in replies;
    assert Answered(replies, 12) && Answered(replies, 14);
  }

  lemma DuplicatedMeasures()
    ensures Measures(DUPLICATED_READING, 64, Reply(7, 14, 63, 4))
    ensures LossOf(DUPLICATED_READING, Reply(7, 14, 63, 4)) == 1 && LastBefore(DUPLICATED_READING) == 10
  {
    DuplicatedSamples();
    assert START[10] != END[10];
    var before, during := Before(DUPLICATED_REPLIES, 4), During(DUPLICATED_REPLIES, 4, 8);
    DuplicatedLoss(during[0], during[1], during[2]);
    assert Ttls(before) == [64];
    assert IsMostCommon([64], 64);
    assert during[2] == Reply(7, 14, 63, 4);
    assert IsFirstChanged(during, 64, Reply(7, 14, 63, 4));
  }

  /** Whatever the parser makes of that capture, it reports one lost packet where two probes got no reply. */
  lemma DuplicateHidesLoss(r: Reading, result: Result<Report, LogError>)
    requires Parses(DUPLICATED, r, result)
    ensures result == Success(Report(HEADER, false, 1, 1, Summary(5, 4), 1, Reply(7, 14, 63, 4)))
    ensures |NeverAnswered(r.replies, LastBefore(r), result.value.changed.sequence)| == 2
  {
    DuplicatedStates();
    DuplicatedSummary();
    DuplicatedMarks();
    DuplicatedReplies();
    ReadingIsUnique(DUPLICATED, r, DUPLICATED_READING);
    DuplicatedMeasures();
    DuplicatedReport(result.value);
    DuplicatedUnanswered();
  }

  lemma DuplicatedReport(report: Report)
    requires Reports(DUPLICATED_READING, report)
    ensures report == Report(HEADER, false, 1, 1, Summary(5, 4), 1, Reply(7, 14, 63, 4))
  {
    DuplicatedMeasures();
    var ttl :| Shows(DUPLICATED_READING, ttl, report.changed);
    ShownIsUnique(DUPLICATED_READING, 64, Reply(7, 14, 63, 4), ttl, report.changed);
    assert START[10] != END[10];
  }
}
