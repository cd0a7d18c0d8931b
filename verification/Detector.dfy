/** The greedy causal detector that turns noisy samples into ordered convergence events. */
module Detector {
  import opened Wrappers
  import opened Convergence

  datatype Sample = Sample(bfdUp: bool, ospfFull: bool, routeMetric: Option<int>, icmpSequence: Option<int>)

  datatype Transition = Transition(event: Kind, offsetMs: int, routeMetric: Option<int>, icmpSequence: Option<int>)

  /** The causal order in which events are looked for. */
  const STAGES: seq<Kind> := [BfdDown, OspfNeighborDown, RouteFailover, DataPlaneRecovered]

  /** The sample shows the condition of the `k`-th stage. */
  predicate Observed(metric: int, k: nat, sample: Sample) {
    match k
    case 0 => !sample.bfdUp
    case 1 => !sample.ospfFull
    case 2 => sample.routeMetric == Some(metric)
    case 3 => sample.icmpSequence.Some?
    case _ => false
  }

  function TransitionAt(k: nat, sample: Sample, offsetMs: int): Transition
    requires k < 4
  {
    Transition(STAGES[k], offsetMs,
               if k == 2 then sample.routeMetric else None,
               if k == 3 then sample.icmpSequence else None)
  }

  /** The kinds of the first `k` stages. */
  function FirstStages(k: nat): set<Kind>
    requires k <= 4
  {
    set i | 0 <= i < k :: STAGES[i]
  }

  lemma StagesDistinct()
    ensures forall i, j | 0 <= i < 4 && 0 <= j < 4 && STAGES[i] == STAGES[j] :: i == j
    ensures FirstStages(4) == {BfdDown, OspfNeighborDown, RouteFailover, DataPlaneRecovered}
    ensures forall k, i | 0 <= k <= 4 && 0 <= i < 4 :: STAGES[i] in FirstStages(k) <==> i < k
  {
    assert STAGES[0] == BfdDown && STAGES[1] == OspfNeighborDown && STAGES[2] == RouteFailover
           && STAGES[3] == DataPlaneRecovered;
  }

  // ----- one observation

  /** The stage reached from stage `k` by consuming every condition the sample shows in order. */
  function Advance(metric: int, sample: Sample, k: nat): (n: nat)
    requires k <= 4
    ensures k <= n <= 4
    ensures forall j | k <= j < n :: Observed(metric, j, sample)
    ensures n < 4 ==> !Observed(metric, n, sample)
    decreases 4 - k
  {
    if k < 4 && Observed(metric, k, sample) then Advance(metric, sample, k + 1) else k
  }

  function EmitsUpTo(sample: Sample, offsetMs: int, k: nat, n: nat): seq<Transition>
    requires k <= n <= 4
  {
    seq(n - k, i requires 0 <= i < n - k => TransitionAt(k + i, sample, offsetMs))
  }

  function Emits(metric: int, sample: Sample, offsetMs: int, k: nat): seq<Transition>
    requires k <= 4
  {
    EmitsUpTo(sample, offsetMs, k, Advance(metric, sample, k))
  }

  class LiveTransitionDetector {
    const failoverMetric: int
    var recorded: set<Kind>

    constructor (failoverMetric: int)
      ensures this.failoverMetric == failoverMetric && AtStage(0)
    {
      this.failoverMetric, this.recorded := failoverMetric, {};
    }

    /** Exactly the first `k` events have been recorded. */
    ghost predicate AtStage(k: nat)
      reads this
    {
      k <= 4 && recorded == FirstStages(k)
    }

    method Observe(sample: Sample, offsetMs: int, ghost k: nat) returns (transitions: seq<Transition>)
      requires AtStage(k)
      modifies this
      ensures AtStage(Advance(failoverMetric, sample, k))
      ensures transitions == Emits(failoverMetric, sample, offsetMs, k)
    {
      StagesDistinct();
      ghost var goal := Advance(failoverMetric, sample, k);
      transitions := [];
      ghost var reached := k;
      for i := 0 to 4
        invariant k <= reached <= goal && AtStage(reached)
        invariant reached == if i <= k then k else i
        invariant transitions == EmitsUpTo(sample, offsetMs, k, reached)
      {
        if STAGES[i] in recorded {
          continue;
        }
        if !Observed(failoverMetric, i, sample) {
          break;
        }
        transitions := transitions + [TransitionAt(i, sample, offsetMs)];
        recorded := recorded + {STAGES[i]};
        reached := reached + 1;
      }
    }
  }

  // ----- a whole sequence of samples

  /** How many events have been emitted once all samples are consumed. */
  function Stage(metric: int, samples: seq<Sample>): (k: nat)
    ensures k <= 4
  {
    if samples == [] then 0 else Advance(metric, samples[|samples| - 1], Stage(metric, samples[..|samples| - 1]))
  }

  /** The index of the sample that emits event `j`. */
  function EmissionIndex(metric: int, samples: seq<Sample>, j: nat): (n: nat)
    requires j < Stage(metric, samples)
    ensures n < |samples|
  {
    var before := samples[..|samples| - 1];
    if j < Stage(metric, before) then EmissionIndex(metric, before, j) else |samples| - 1
  }

  /** Everything emitted over a run, in order. */
  function Output(metric: int, samples: seq<Sample>, offsets: seq<int>): seq<Transition>
    requires |samples| == |offsets|
  {
    if samples == [] then []
    else
      var n := |samples| - 1;
      Output(metric, samples[..n], offsets[..n]) + Emits(metric, samples[n], offsets[n], Stage(metric, samples[..n]))
  }

  /** The output is the causal order cut at the stage reached: each event once, from its emission sample. */
  lemma {:induction false} OutputIsCausalPrefix(metric: int, samples: seq<Sample>, offsets: seq<int>)
    requires |samples| == |offsets|
    ensures |Output(metric, samples, offsets)| == Stage(metric, samples)
    ensures forall j | 0 <= j < Stage(metric, samples) ::
              var n := EmissionIndex(metric, samples, j);
              Output(metric, samples, offsets)[j] == TransitionAt(j, samples[n], offsets[n])
  {
    if samples != [] {
      var n := |samples| - 1;
      OutputIsCausalPrefix(metric, samples[..n], offsets[..n]);
    }
  }

  /** Each emitted event is of its place's kind, shows its condition, and carries its own sample's offset and number. */
  lemma EmissionCarriesItsSample(metric: int, samples: seq<Sample>, offsets: seq<int>, j: nat)
    requires |samples| == |offsets| && j < Stage(metric, samples)
    ensures j < |Output(metric, samples, offsets)|
    ensures var n := EmissionIndex(metric, samples, j);
            var sample, t := samples[n], Output(metric, samples, offsets)[j];
            match j
            case 0 => !sample.bfdUp && t == Transition(BfdDown, offsets[n], None, None)
            case 1 => !sample.ospfFull && t == Transition(OspfNeighborDown, offsets[n], None, None)
            case 2 => sample.routeMetric == Some(metric)
                && t == Transition(RouteFailover, offsets[n], Some(metric), None)
            case 3 =>
              sample.icmpSequence.Some? && t == Transition(DataPlaneRecovered, offsets[n], None, sample.icmpSequence)
            case _ => false
  {
    OutputIsCausalPrefix(metric, samples, offsets);
    EmissionsAreCausal(metric, samples, j, j);
  }

  /** Sample indices, in order, at which the first `|times|` conditions hold one after the other. */
  ghost predicate Causal(metric: int, samples: seq<Sample>, times: seq<nat>) {
    && (forall j | 0 <= j < |times| :: times[j] < |samples| && Observed(metric, j, samples[times[j]]))
    && (forall i, j | 0 <= i < j < |times| :: times[i] <= times[j])
  }

  /** How many of the times fall before sample `n`. */
  function Earlier(times: seq<nat>, n: nat): (m: nat)
    ensures m <= |times|
    ensures forall j | 0 <= j < m :: times[j] < n
    ensures m < |times| ==> times[m] >= n
  {
    if times == [] || times[0] >= n then 0 else 1 + Earlier(times[1..], n)
  }

  /** Complete: whatever can be explained causally has been emitted. */
  lemma {:induction false} DetectorIsComplete(metric: int, samples: seq<Sample>, times: seq<nat>)
    requires Causal(metric, samples, times) && |times| <= 4
    ensures Stage(metric, samples) >= |times|
  {
    if samples == [] {
    } else {
      var n := |samples| - 1;
      var m := Earlier(times, n);
      assert Causal(metric, samples[..n], times[..m]);
      DetectorIsComplete(metric, samples[..n], times[..m]);
      forall j | m <= j < |times| ensures Observed(metric, j, samples[n]) {
        assert times[m] <= times[j];
      }
    }
  }

  /** Sound: what is emitted is causally explained by its own emission samples. */
  lemma {:induction false} EmissionsAreCausal(metric: int, samples: seq<Sample>, i: nat, j: nat)
    requires i <= j < Stage(metric, samples)
    ensures Observed(metric, j, samples[EmissionIndex(metric, samples, j)])
    ensures EmissionIndex(metric, samples, i) <= EmissionIndex(metric, samples, j)
  {
    var before := samples[..|samples| - 1];
    if j < Stage(metric, before) {
      EmissionsAreCausal(metric, before, i, j);
    }
  }

  lemma {:induction false} StageOfPrefix(metric: int, samples: seq<Sample>, n: nat, j: nat)
    requires n <= |samples| && j < Stage(metric, samples[..n])
    ensures j < Stage(metric, samples) && EmissionIndex(metric, samples, j) < n
    decreases |samples|
  {
    if n == |samples| {
      assert samples[..n] == samples;
    } else {
      assert samples[..|samples| - 1][..n] == samples[..n];
      StageOfPrefix(metric, samples[..|samples| - 1], n, j);
    }
  }

  /** Earliest: no causal explanation reaches event `j` before the detector does. */
  lemma DetectorIsEarliest(metric: int, samples: seq<Sample>, times: seq<nat>, j: nat)
    requires Causal(metric, samples, times) && j < |times| <= 4
    ensures j < Stage(metric, samples) && EmissionIndex(metric, samples, j) <= times[j]
  {
    var n := times[j] + 1;
    assert Causal(metric, samples[..n], times[..j + 1]);
    DetectorIsComplete(metric, samples[..n], times[..j + 1]);
    StageOfPrefix(metric, samples, n, j);
  }

  /** The first `m` events are emitted exactly when samples exist that explain them in order. */
  lemma EmittedIffExplained(metric: int, samples: seq<Sample>, m: nat)
    requires m <= 4
    ensures Stage(metric, samples) >= m <==> exists times: seq<nat> :: |times| == m && Causal(metric, samples, times)
  {
    if Stage(metric, samples) >= m {
      var times: seq<nat> := seq(m, j requires 0 <= j < m => EmissionIndex(metric, samples, j));
      forall j | 0 <= j < m ensures Observed(metric, j, samples[times[j]]) {
        EmissionsAreCausal(metric, samples, j, j);
      }
      forall i, j | 0 <= i < j < m ensures times[i] <= times[j] {
        EmissionsAreCausal(metric, samples, i, j);
      }
      assert Causal(metric, samples, times);
    }
    if times: seq<nat> :| |times| == m && Causal(metric, samples, times) {
      DetectorIsComplete(metric, samples, times);
    }
  }
}
