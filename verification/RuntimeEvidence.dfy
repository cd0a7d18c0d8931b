/**
 The runtime N-1 checker: observations are compared with the plan, the checks are counted, and the
 published summary is validated against the counts.
 */
module RuntimeEvidence {
  import opened Wrappers
  import opened Collections
  import Text
  import opened Topology
  import opened Audit
  import opened RuntimePlan

  datatype PathObservation = PathObservation(
    faultMetric: Option<int>,
    faultReachable: bool,
    restoredMetric: Option<int>,
    restoredReachable: bool)

  /** Observed paths by access node; the document's validator makes the names unique. */
  datatype ScenarioObservation = ScenarioObservation(paths: map<Name, PathObservation>)

  /** Observed scenarios by identifier, likewise unique. */
  datatype Observation = Observation(scenarios: map<string, ScenarioObservation>)

  datatype CheckKind = FaultMetric | FaultReachability | RestoredMetric | RestoredReachability

  datatype Check = Check(kind: CheckKind, accessNode: Name, passed: bool)

  datatype ScenarioEvidence = ScenarioEvidence(fault: FaultScenario, component: string, passed: bool,
                                               checks: seq<Check>)

  datatype Evidence = Evidence(passedAll: bool, total: nat, passed: nat, failed: nat, scenarios: seq<ScenarioEvidence>)

  datatype EvidenceError = ScenarioSetMismatch | AccessSetMismatch(scenario: string)

  // ----- what agreement means

  /** The observation shows exactly what the plan expects of this path. */
  predicate Conforms(expected: AccessPath, actual: PathObservation) {
    && actual.faultMetric == expected.postFaultCost
    && actual.faultReachable == expected.postFaultCost.Some?
    && actual.restoredMetric == Some(expected.baselineCost)
    && actual.restoredReachable
  }

  /** The observation of one quantity is what the plan expects of it. */
  predicate Agrees(kind: CheckKind, expected: AccessPath, actual: PathObservation) {
    match kind
    case FaultMetric => actual.faultMetric == expected.postFaultCost
    case FaultReachability => actual.faultReachable == expected.postFaultCost.Some?
    case RestoredMetric => actual.restoredMetric == Some(expected.baselineCost)
    case RestoredReachability => actual.restoredReachable
  }

  /** The access nodes and quantities of one scenario whose observation is not what is expected. */
  ghost function FailedIn(id: string, paths: seq<AccessPath>, observed: ScenarioObservation)
    : set<(string, Name, CheckKind)>
  {
    set p, k: CheckKind | p in paths && p.accessNode in observed.paths && !Agrees(k, p, observed.paths[p.accessNode])
      :: (id, p.accessNode, k)
  }

  /** The (scenario, access node, quantity) triples whose observation is not what is expected. */
  ghost function Disagreements(plans: seq<FaultPlan>, observation: Observation): set<(string, Name, CheckKind)> {
    set s, p, k: CheckKind |
      && s in plans && s.fault.id in observation.scenarios && p in s.paths
      && p.accessNode in observation.scenarios[s.fault.id].paths
      && !Agrees(k, p, observation.scenarios[s.fault.id].paths[p.accessNode])
      :: (s.fault.id, p.accessNode, k)
  }

  ghost predicate ScenarioConforms(plan: FaultPlan, observed: ScenarioObservation)
    requires SameAccess(plan, observed)
  {
    forall p | p in plan.paths :: p.accessNode in observed.paths && Conforms(p, observed.paths[p.accessNode])
  }

  predicate SameAccess(plan: FaultPlan, observed: ScenarioObservation) {
    observed.paths.Keys == set p | p in plan.paths :: p.accessNode
  }

  predicate SameScenarios(plans: seq<FaultPlan>, observation: Observation) {
    observation.scenarios.Keys == set p | p in plans :: p.fault.id
  }

  /** The plan's own validators. */
  ghost predicate ValidPlans(plans: seq<FaultPlan>) {
    && (forall i, j | 0 <= i < j < |plans| :: plans[i].fault.id != plans[j].fault.id)
    && forall p | p in plans :: HasDistinctPaths(p)
  }

  ghost predicate HasDistinctPaths(p: FaultPlan) {
    forall i, j | 0 <= i < j < |p.paths| :: p.paths[i].accessNode != p.paths[j].accessNode
  }

  // ----- counting

  function PathTotal(plans: seq<FaultPlan>): nat {
    if plans == [] then 0 else PathTotal(plans[..|plans| - 1]) + |plans[|plans| - 1].paths|
  }

  function PassedChecks(checks: seq<Check>): nat {
    if checks == [] then 0 else PassedChecks(checks[..|checks| - 1]) + if checks[|checks| - 1].passed then 1 else 0
  }

  lemma {:induction false} PassedChecksOfConcat(a: seq<Check>, b: seq<Check>)
    ensures PassedChecks(a + b) == PassedChecks(a) + PassedChecks(b)
  {
    if b == [] {
      assert a + b == a;
    } else {
      assert (a + b)[..|a + b| - 1] == a + b[..|b| - 1];
      PassedChecksOfConcat(a, b[..|b| - 1]);
    }
  }

  lemma {:induction false} AllPassedCount(checks: seq<Check>)
    ensures PassedChecks(checks) <= |checks|
    ensures PassedChecks(checks) == |checks| <==> forall c | c in checks :: c.passed
  {
    if checks != [] {
      var before, last := checks[..|checks| - 1], checks[|checks| - 1];
      AllPassedCount(before);
      assert checks == before + [last];
    }
  }

  function AllChecks(scenarios: seq<ScenarioEvidence>): seq<Check> {
    if scenarios == [] then [] else AllChecks(scenarios[..|scenarios| - 1]) + scenarios[|scenarios| - 1].checks
  }

  /** The four comparisons of one access node. */
  function PathChecks(expected: AccessPath, actual: PathObservation): seq<Check> {
    [
      Check(FaultMetric, expected.accessNode, expected.postFaultCost == actual.faultMetric),
      Check(FaultReachability, expected.accessNode, expected.postFaultCost.Some? == actual.faultReachable),
      Check(RestoredMetric, expected.accessNode, Some(expected.baselineCost) == actual.restoredMetric),
      Check(RestoredReachability, expected.accessNode, actual.restoredReachable)
    ]
  }

  /** The checks of one path stand together, in this order, each with the path's own access node. */
  ghost predicate FourChecks(checks: seq<Check>, i: nat, expected: AccessPath, actual: PathObservation)
    requires 4 * i + 3 < |checks|
  {
    && checks[4 * i] == Check(FaultMetric, expected.accessNode, actual.faultMetric == expected.postFaultCost)
    && checks[4 * i + 1]
       == Check(FaultReachability, expected.accessNode, actual.faultReachable == expected.postFaultCost.Some?)
    && checks[4 * i + 2]
       == Check(RestoredMetric, expected.accessNode, actual.restoredMetric == Some(expected.baselineCost))
    && checks[4 * i + 3] == Check(RestoredReachability, expected.accessNode, actual.restoredReachable)
  }

  /** Four checks for each path, in the order of the paths. */
  ghost predicate ListsChecks(paths: seq<AccessPath>, observed: ScenarioObservation, checks: seq<Check>)
    requires forall p | p in paths :: p.accessNode in observed.paths
  {
    && |checks| == 4 * |paths|
    && forall i | 0 <= i < |paths| :: FourChecks(checks, i, paths[i], observed.paths[paths[i].accessNode])
  }

  lemma ListsChecksStep(paths: seq<AccessPath>, observed: ScenarioObservation, checks: seq<Check>, p: AccessPath)
    requires forall q | q in paths + [p] :: q.accessNode in observed.paths
    requires forall q | q in paths :: q.accessNode in observed.paths
    requires ListsChecks(paths, observed, checks) && p.accessNode in observed.paths
    ensures ListsChecks(paths + [p], observed, checks + PathChecks(p, observed.paths[p.accessNode]))
  {
    var more, all := paths + [p], checks + PathChecks(p, observed.paths[p.accessNode]);
    forall i | 0 <= i < |more| ensures FourChecks(all, i, more[i], observed.paths[more[i].accessNode]) {
      if i < |paths| {
        assert FourChecks(checks, i, paths[i], observed.paths[paths[i].accessNode]);
      }
    }
  }

  ghost function Failing(kind: CheckKind, id: string, expected: AccessPath, actual: PathObservation)
    : set<(string, Name, CheckKind)>
  {
    if Agrees(kind, expected, actual) then {} else {(id, expected.accessNode, kind)}
  }

  function Fails(expected: AccessPath, actual: PathObservation): nat {
    (if Agrees(FaultMetric, expected, actual) then 0 else 1)
    + (if Agrees(FaultReachability, expected, actual) then 0 else 1)
    + (if Agrees(RestoredMetric, expected, actual) then 0 else 1)
    + (if Agrees(RestoredReachability, expected, actual) then 0 else 1)
  }

  /** What one path adds to the failures of its scenario. */
  lemma FailedInStep(id: string, paths: seq<AccessPath>, observed: ScenarioObservation, p: AccessPath)
    requires p.accessNode in observed.paths && forall q | q in paths :: q.accessNode != p.accessNode
    ensures var actual := observed.paths[p.accessNode];
            |FailedIn(id, paths + [p], observed)| == |FailedIn(id, paths, observed)| + Fails(p, actual)
  {
    var actual, before := observed.paths[p.accessNode], FailedIn(id, paths, observed);
    var a, b := Failing(FaultMetric, id, p, actual), Failing(FaultReachability, id, p, actual);
    var c, d := Failing(RestoredMetric, id, p, actual), Failing(RestoredReachability, id, p, actual);
    forall x ensures x in FailedIn(id, paths + [p], observed) <==> x in before + a + b + c + d {
      FailedInMember(id, paths, observed, p, x);
    }
    assert FailedIn(id, paths + [p], observed) == before + a + b + c + d;
    assert forall x | x in before :: x.1 != p.accessNode;
    assert before !! a && (before + a) !! b && (before + a + b) !! c && (before + a + b + c) !! d;
  }

  lemma FailedInMember(id: string, paths: seq<AccessPath>, observed: ScenarioObservation, p: AccessPath,
                       x: (string, Name, CheckKind))
    requires p.accessNode in observed.paths
    ensures x in FailedIn(id, paths + [p], observed) <==>
            || x in FailedIn(id, paths, observed)
            || (x.0 == id && x.1 == p.accessNode && !Agrees(x.2, p, observed.paths[p.accessNode]))
  {
    assert forall q :: q in paths + [p] <==> q in paths || q == p;
  }

  lemma FailedOfFour(checks: seq<Check>, expected: AccessPath, actual: PathObservation)
    requires |checks| == 4 && FourChecks(checks, 0, expected, actual)
    ensures 4 - PassedChecks(checks) == Fails(expected, actual)
  {
    PassedOfFour(checks);
  }

  lemma PassedOfFour(checks: seq<Check>)
    requires |checks| == 4
    ensures PassedChecks(checks) == (if checks[0].passed then 1 else 0) + (if checks[1].passed then 1 else 0)
                                  + (if checks[2].passed then 1 else 0) + (if checks[3].passed then 1 else 0)
  {
    assert checks[..3][..2] == checks[..2] && checks[..2][..1] == checks[..1] && checks[..1][..0] == [];
    assert PassedChecks(checks[..1]) == if checks[0].passed then 1 else 0;
    assert PassedChecks(checks[..2]) == PassedChecks(checks[..1]) + if checks[1].passed then 1 else 0;
    assert PassedChecks(checks[..3]) == PassedChecks(checks[..2]) + if checks[2].passed then 1 else 0;
  }

  lemma ListsChecksPrefix(paths: seq<AccessPath>, observed: ScenarioObservation, checks: seq<Check>)
    requires paths != [] && forall p | p in paths :: p.accessNode in observed.paths
    requires ListsChecks(paths, observed, checks)
    ensures var n := |paths| - 1;
            && (forall p | p in paths[..n] :: p.accessNode in observed.paths)
            && ListsChecks(paths[..n], observed, checks[..4 * n])
            && FourChecks(checks[4 * n..], 0, paths[n], observed.paths[paths[n].accessNode])
  {
    var n := |paths| - 1;
    forall i | 0 <= i < n
      ensures FourChecks(checks[..4 * n], i, paths[..n][i], observed.paths[paths[..n][i].accessNode])
    {
      assert FourChecks(checks, i, paths[i], observed.paths[paths[i].accessNode]);
    }
    assert FourChecks(checks, n, paths[n], observed.paths[paths[n].accessNode]);
  }

  lemma {:induction false} FailedChecksCount(id: string, paths: seq<AccessPath>, observed: ScenarioObservation,
                                             checks: seq<Check>)
    requires forall p | p in paths :: p.accessNode in observed.paths
    requires forall i, j | 0 <= i < j < |paths| :: paths[i].accessNode != paths[j].accessNode
    requires ListsChecks(paths, observed, checks)
    ensures |checks| - PassedChecks(checks) == |FailedIn(id, paths, observed)|
  {
    if paths == [] {
      assert FailedIn(id, paths, observed) == {};
    } else {
      var n := |paths| - 1;
      var before, p, first, four := paths[..n], paths[n], checks[..4 * n], checks[4 * n..];
      ListsChecksPrefix(paths, observed, checks);
      FailedChecksCount(id, before, observed, first);
      assert paths == before + [p] && checks == first + four;
      FailedInStep(id, before, observed, p);
      PassedChecksOfConcat(first, four);
      FailedOfFour(four, p, observed.paths[p.accessNode]);
    }
  }

  ghost predicate ChecksAgree(paths: seq<AccessPath>, observed: ScenarioObservation, checks: seq<Check>)
    requires forall p | p in paths :: p.accessNode in observed.paths
  {
    && |checks| == 4 * |paths|
    && ((forall c | c in checks :: c.passed) <==> forall p | p in paths :: Conforms(p, observed.paths[p.accessNode]))
  }

  /** The record of one scenario: its checks one by one, and the verdict that they all pass, which is full agreement. */
  ghost predicate IsEvidence(plan: FaultPlan, observed: ScenarioObservation, evidence: ScenarioEvidence)
    requires SameAccess(plan, observed)
  {
    && evidence.fault == plan.fault && evidence.component == plan.component
    && (forall p | p in plan.paths :: p.accessNode in observed.paths)
    && ListsChecks(plan.paths, observed, evidence.checks)
    && (evidence.passed <==> ScenarioConforms(plan, observed))
    && (evidence.passed <==> forall c | c in evidence.checks :: c.passed)
  }

  lemma ChecksStep(paths: seq<AccessPath>, observed: ScenarioObservation, checks: seq<Check>, p: AccessPath)
    requires forall q | q in paths + [p] :: q.accessNode in observed.paths
    requires forall q | q in paths :: q.accessNode in observed.paths
    requires p.accessNode in observed.paths
    requires ChecksAgree(paths, observed, checks) && ListsChecks(paths, observed, checks)
    ensures var more := checks + PathChecks(p, observed.paths[p.accessNode]);
            ChecksAgree(paths + [p], observed, more) && ListsChecks(paths + [p], observed, more)
  {
    ListsChecksStep(paths, observed, checks, p);
    var four := PathChecks(p, observed.paths[p.accessNode]);
    assert (forall c | c in four :: c.passed) <==> Conforms(p, observed.paths[p.accessNode]) by {
      assert four[0] in four && four[1] in four && four[2] in four && four[3] in four;
    }
    assert forall c :: c in checks + four <==> c in checks || c in four;
    assert forall q :: q in paths + [p] <==> q in paths || q == p;
  }

  method CheckScenario(plan: FaultPlan, observed: ScenarioObservation) returns (evidence: ScenarioEvidence)
    requires SameAccess(plan, observed)
    ensures IsEvidence(plan, observed, evidence)
  {
    assert forall p | p in plan.paths :: p.accessNode in observed.paths;
    var checks: seq<Check> := [];
    for i := 0 to |plan.paths|
      invariant forall p | p in plan.paths[..i] :: p.accessNode in observed.paths
      invariant ChecksAgree(plan.paths[..i], observed, checks) && ListsChecks(plan.paths[..i], observed, checks)
    {
      var expected := plan.paths[i];
      assert expected in plan.paths;
      PrefixStep(plan.paths, i);
      ChecksStep(plan.paths[..i], observed, checks, expected);
      checks := checks + PathChecks(expected, observed.paths[expected.accessNode]);
    }
    assert plan.paths[..|plan.paths|] == plan.paths;
    var passed := forall c | c in checks :: c.passed;
    evidence := ScenarioEvidence(plan.fault, plan.component, passed, checks);
  }

  ghost predicate Verdicts(plans: seq<FaultPlan>, observation: Observation, scenarios: seq<ScenarioEvidence>) {
    && |scenarios| == |plans|
    && (forall p | p in plans ::
          p.fault.id in observation.scenarios && SameAccess(p, observation.scenarios[p.fault.id]))
    && (forall i | 0 <= i < |plans| ::
          && scenarios[i].fault == plans[i].fault && scenarios[i].component == plans[i].component
          && (scenarios[i].passed <==> ScenarioConforms(plans[i], observation.scenarios[plans[i].fault.id])))
    && (forall i | 0 <= i < |plans| :: ChecksShown(plans[i], observation, scenarios[i]))
  }

  ghost predicate ChecksShown(plan: FaultPlan, observation: Observation, evidence: ScenarioEvidence) {
    && plan.fault.id in observation.scenarios
    && (forall p | p in plan.paths :: p.accessNode in observation.scenarios[plan.fault.id].paths)
    && ListsChecks(plan.paths, observation.scenarios[plan.fault.id], evidence.checks)
  }

  ghost predicate Counts(plans: seq<FaultPlan>, scenarios: seq<ScenarioEvidence>, total: nat, passed: nat) {
    && total == 4 * PathTotal(plans) == |AllChecks(scenarios)|
    && passed == PassedChecks(AllChecks(scenarios)) <= total
    && (passed == total <==> forall s | s in scenarios :: s.passed)
  }

  /** Evidence accumulated over the first plans: each verdict, and the counts of all checks. */
  ghost predicate Accounts(plans: seq<FaultPlan>, observation: Observation, scenarios: seq<ScenarioEvidence>,
                           total: nat, passed: nat) {
    Verdicts(plans, observation, scenarios) && Counts(plans, scenarios, total, passed)
  }

  lemma CountsStep(plans: seq<FaultPlan>, scenarios: seq<ScenarioEvidence>, total: nat, passed: nat, plan: FaultPlan,
                   evidence: ScenarioEvidence)
    requires Counts(plans, scenarios, total, passed) && |evidence.checks| == 4 * |plan.paths|
    requires evidence.passed <==> PassedChecks(evidence.checks) == |evidence.checks|
    ensures Counts(plans + [plan], scenarios + [evidence], total + |evidence.checks|,
                   passed + PassedChecks(evidence.checks))
  {
    AllPassedCount(evidence.checks);
    assert (plans + [plan])[..|plans|] == plans && (scenarios + [evidence])[..|scenarios|] == scenarios;
    PassedChecksOfConcat(AllChecks(scenarios), evidence.checks);
  }

  lemma VerdictsStep(plans: seq<FaultPlan>, observation: Observation, scenarios: seq<ScenarioEvidence>, plan: FaultPlan,
                     evidence: ScenarioEvidence)
    requires Verdicts(plans, observation, scenarios)
    requires plan.fault.id in observation.scenarios && SameAccess(plan, observation.scenarios[plan.fault.id])
    requires evidence.fault == plan.fault && evidence.component == plan.component
    requires evidence.passed <==> ScenarioConforms(plan, observation.scenarios[plan.fault.id])
    requires ChecksShown(plan, observation, evidence)
    ensures Verdicts(plans + [plan], observation, scenarios + [evidence])
  {
  }

  lemma AccountsStep(plans: seq<FaultPlan>, i: nat, observation: Observation, scenarios: seq<ScenarioEvidence>,
                     total: nat, passed: nat, evidence: ScenarioEvidence)
    requires i < |plans| && Accounts(plans[..i], observation, scenarios, total, passed)
    requires Observes(plans[i], observation)
    requires IsEvidence(plans[i], observation.scenarios[plans[i].fault.id], evidence)
    ensures Accounts(plans[..i + 1], observation, scenarios + [evidence], total + |evidence.checks|,
                     passed + PassedChecks(evidence.checks))
  {
    AllPassedCount(evidence.checks);
    VerdictsStep(plans[..i], observation, scenarios, plans[i], evidence);
    CountsStep(plans[..i], scenarios, total, passed, plans[i], evidence);
    PrefixStep(plans, i);
  }

  ghost predicate SameAccessThroughout(plans: seq<FaultPlan>, observation: Observation)
    requires SameScenarios(plans, observation)
  {
    forall p | p in plans :: SameAccess(p, observation.scenarios[p.fault.id])
  }

  /** The first scenario of the plan whose observation is about other access nodes. */
  ghost predicate FirstMismatch(plans: seq<FaultPlan>, observation: Observation, scenario: string)
    requires SameScenarios(plans, observation)
  {
    exists i | 0 <= i < |plans| ::
      && plans[i].fault.id == scenario && scenario in observation.scenarios
      && !SameAccess(plans[i], observation.scenarios[scenario])
      && forall j | 0 <= j < i :: Observes(plans[j], observation)
  }

  ghost predicate Observes(plan: FaultPlan, observation: Observation) {
    plan.fault.id in observation.scenarios && SameAccess(plan, observation.scenarios[plan.fault.id])
  }

  /** The plan lists the scenario. */
  ghost predicate Lists(plans: seq<FaultPlan>, scenario: string) {
    exists p :: p in plans && p.fault.id == scenario
  }

  /** The scenario's plan is about the access node. */
  ghost predicate Expects(plan: FaultPlan, access: Name) {
    exists p :: p in plan.paths && p.accessNode == access
  }

  /**
   Evidence is built exactly when plan and observation have the same scenarios and, in each, the same access
   nodes.
   */
  lemma MatchMeans(plans: seq<FaultPlan>, observation: Observation)
    ensures SameScenarios(plans, observation) <==> forall id :: id in observation.scenarios <==> Lists(plans, id)
    ensures forall p, o :: SameAccess(p, o) <==> forall n :: n in o.paths <==> Expects(p, n)
  {
    forall id ensures id in (set p | p in plans :: p.fault.id) <==> Lists(plans, id) {
    }
    forall p: FaultPlan, o ensures SameAccess(p, o) <==> forall n :: n in o.paths <==> Expects(p, n) {
      AccessMeans(p, o);
    }
  }

  lemma AccessMeans(plan: FaultPlan, observed: ScenarioObservation)
    ensures SameAccess(plan, observed) <==> forall n :: n in observed.paths <==> Expects(plan, n)
  {
    forall n ensures n in (set p | p in plan.paths :: p.accessNode) <==> Expects(plan, n) {
    }
  }

  /** The running results of the loop over the plans. */
  datatype Running = Running(scenarios: seq<ScenarioEvidence>, total: nat, passed: nat)

  /** One turn of the loop over the plans. */
  method CheckPlan(plans: seq<FaultPlan>, i: nat, observation: Observation, running: Running)
    returns (r: Result<Running, EvidenceError>)
    requires SameScenarios(plans, observation) && i < |plans|
    requires Accounts(plans[..i], observation, running.scenarios, running.total, running.passed)
    ensures plans[i].fault.id in observation.scenarios
    ensures r.Success? <==> SameAccess(plans[i], observation.scenarios[plans[i].fault.id])
    ensures r.Success? ==> Accounts(plans[..i + 1], observation, r.value.scenarios, r.value.total, r.value.passed)
    ensures r.Failure? ==> r.error == AccessSetMismatch(plans[i].fault.id)
  {
    var plan := plans[i];
    assert plan in plans;
    var observed := observation.scenarios[plan.fault.id];
    if !SameAccess(plan, observed) {
      return Failure(AccessSetMismatch(plan.fault.id));
    }
    var evidence := CheckScenario(plan, observed);
    AccountsStep(plans, i, observation, running.scenarios, running.total, running.passed, evidence);
    return Success(Running(
      running.scenarios + [evidence], running.total + |evidence.checks|,
      running.passed + PassedChecks(evidence.checks)));
  }

  method CheckPlans(plans: seq<FaultPlan>, observation: Observation) returns (r: Result<Running, EvidenceError>)
    requires SameScenarios(plans, observation)
    ensures r.Success? <==> SameAccessThroughout(plans, observation)
    ensures r.Success? ==> Accounts(plans, observation, r.value.scenarios, r.value.total, r.value.passed)
    ensures r.Failure? ==>
              r.error.AccessSetMismatch? && FirstMismatch(plans, observation, r.error.scenario)
  {
    var running := Running([], 0, 0);
    for i := 0 to |plans|
      invariant Accounts(plans[..i], observation, running.scenarios, running.total, running.passed)
    {
      assert plans[i] in plans;
      var next := CheckPlan(plans, i, observation, running);
      if next.Failure? {
        assert forall j | 0 <= j < i :: plans[..i][j] == plans[j] && plans[j] in plans[..i];
        return Failure(next.error);
      }
      running := next.value;
    }
    assert plans[..|plans|] == plans;
    return Success(running);
  }

  method BuildRuntimeN1Evidence(plans: seq<FaultPlan>, observation: Observation)
    returns (r: Result<Evidence, EvidenceError>)
    requires ValidPlans(plans)
    ensures r.Success? <==> SameScenarios(plans, observation) && SameAccessThroughout(plans, observation)
    ensures r.Success? ==>
              && Accounts(plans, observation, r.value.scenarios, r.value.total, r.value.passed)
              && r.value.failed == r.value.total - r.value.passed
              && r.value.passedAll == (r.value.passed == r.value.total)
    ensures r.Success? ==> r.value.failed == |Disagreements(plans, observation)|
    ensures r.Failure? && r.error == ScenarioSetMismatch <==> !SameScenarios(plans, observation)
    ensures r.Failure? && r.error.AccessSetMismatch? ==>
              SameScenarios(plans, observation) && FirstMismatch(plans, observation, r.error.scenario)
  {
    if !SameScenarios(plans, observation) {
      return Failure(ScenarioSetMismatch);
    }
    var running :- CheckPlans(plans, observation);
    var total, passed := running.total, running.passed;
    FailedIsDisagreements(plans, observation, running.scenarios, total, passed);
    return Success(Evidence(passed == total, total, passed, total - passed, running.scenarios));
  }

  lemma DisagreementsStep(plans: seq<FaultPlan>, observation: Observation, plan: FaultPlan)
    requires plan.fault.id in observation.scenarios && forall p | p in plans :: p.fault.id != plan.fault.id
    ensures |Disagreements(plans + [plan], observation)|
              == |Disagreements(plans, observation)|
               + |FailedIn(plan.fault.id, plan.paths, observation.scenarios[plan.fault.id])|
  {
    var before, here := Disagreements(plans, observation),
        FailedIn(plan.fault.id, plan.paths, observation.scenarios[plan.fault.id]);
    assert forall p :: p in plans + [plan] <==> p in plans || p == plan;
    assert Disagreements(plans + [plan], observation) == before + here;
    assert before !! here;
  }

  ghost predicate AllShown(plans: seq<FaultPlan>, observation: Observation, scenarios: seq<ScenarioEvidence>) {
    && |scenarios| == |plans|
    && forall i | 0 <= i < |plans| :: ChecksShown(plans[i], observation, scenarios[i])
  }

  lemma ShownPrefix(plans: seq<FaultPlan>, observation: Observation, scenarios: seq<ScenarioEvidence>)
    requires plans != [] && ValidPlans(plans) && AllShown(plans, observation, scenarios)
    ensures var n := |plans| - 1;
            && ValidPlans(plans[..n]) && AllShown(plans[..n], observation, scenarios[..n])
            && (forall p | p in plans[..n] :: p.fault.id != plans[n].fault.id)
            && HasDistinctPaths(plans[n]) && ChecksShown(plans[n], observation, scenarios[n])
  {
    var n := |plans| - 1;
    assert plans[n] in plans;
    forall i | 0 <= i < n ensures ChecksShown(plans[..n][i], observation, scenarios[..n][i]) {
      assert ChecksShown(plans[i], observation, scenarios[i]);
    }
  }

  /** What did not pass is what disagrees: each scenario, access node and quantity once. */
  lemma {:induction false} FailedIsDisagreements(plans: seq<FaultPlan>, observation: Observation,
                                                 scenarios: seq<ScenarioEvidence>, total: nat, passed: nat)
    requires ValidPlans(plans) && AllShown(plans, observation, scenarios)
    requires total == |AllChecks(scenarios)| && passed == PassedChecks(AllChecks(scenarios))
    ensures total - passed == |Disagreements(plans, observation)|
  {
    if plans == [] {
      assert Disagreements(plans, observation) == {};
    } else {
      var n := |plans| - 1;
      var before, plan, evidence := plans[..n], plans[n], scenarios[n];
      assert plans == before + [plan];
      ShownPrefix(plans, observation, scenarios);
      var checks := AllChecks(scenarios[..n]);
      FailedIsDisagreements(before, observation, scenarios[..n], |checks|, PassedChecks(checks));
      DisagreementsStep(before, observation, plan);
      AddedFailures(observation, checks, plan, evidence);
    }
  }

  lemma AddedFailures(observation: Observation, checks: seq<Check>, plan: FaultPlan, evidence: ScenarioEvidence)
    requires HasDistinctPaths(plan) && ChecksShown(plan, observation, evidence)
    ensures |checks + evidence.checks| - PassedChecks(checks + evidence.checks)
              == |checks| - PassedChecks(checks)
               + |FailedIn(plan.fault.id, plan.paths, observation.scenarios[plan.fault.id])|
  {
    FailedChecksCount(plan.fault.id, plan.paths, observation.scenarios[plan.fault.id], evidence.checks);
    PassedChecksOfConcat(checks, evidence.checks);
  }

  /** The overall verdict, every scenario's verdict and full agreement with the plan are one and the same. */
  lemma PassedAllMeansConformance(plans: seq<FaultPlan>, observation: Observation, e: Evidence)
    requires Accounts(plans, observation, e.scenarios, e.total, e.passed)
    requires e.failed == e.total - e.passed && e.passedAll == (e.passed == e.total)
    ensures e.passedAll <==> forall s | s in e.scenarios :: s.passed
    ensures e.passedAll <==> forall p | p in plans :: ScenarioConforms(p, observation.scenarios[p.fault.id])
    ensures e.passedAll <==> e.failed == 0
  {
    assert forall i | 0 <= i < |plans| :: plans[i] in plans;
  }

  // ----- the published summary

  datatype PublishedScenario = PublishedScenario(scenarioId: string, passed: bool)

  datatype Published = Published(passedAll: bool, totalChecks: int, passedChecks: int, failedChecks: int,
                                 scenarios: seq<PublishedScenario>)

  /** The field bounds and the consistency validator of a published summary. */
  predicate Consistent(p: Published) {
    && 1 <= p.totalChecks <= 1024 && 0 <= p.passedChecks <= 1024 && 0 <= p.failedChecks <= 1024
    && 1 <= |p.scenarios| <= 64
    && (forall i, j | 0 <= i < j < |p.scenarios| :: p.scenarios[i].scenarioId != p.scenarios[j].scenarioId)
    && p.totalChecks == p.passedChecks + p.failedChecks
    && p.totalChecks == |p.scenarios| * 8
    && ((p.failedChecks == 0) == forall s | s in p.scenarios :: s.passed)
    && p.passedAll == (p.failedChecks == 0)
  }

  function Publish(e: Evidence): Published {
    Published(e.passedAll, e.total, e.passed, e.failed,
              seq(|e.scenarios|, i requires 0 <= i < |e.scenarios| => PublishedScenario(e.scenarios[i].fault.id,
                    e.scenarios[i].passed)))
  }

  /** The scenarios and the number of failed checks determine all else in a consistent summary. */
  lemma ConsistentIsDetermined(p: Published, q: Published)
    requires Consistent(p) && Consistent(q) && p.scenarios == q.scenarios && p.failedChecks == q.failedChecks
    ensures p == q && p.totalChecks == 8 * |p.scenarios| && (p.passedAll <==> p.failedChecks == 0)
  {
  }

  lemma {:induction false} EqualPathCounts(plans: seq<FaultPlan>, n: nat)
    requires forall p | p in plans :: |p.paths| == n
    ensures PathTotal(plans) == n * |plans|
  {
    if plans != [] {
      assert plans[|plans| - 1] in plans;
      EqualPathCounts(plans[..|plans| - 1], n);
      assert n * |plans| == n * (|plans| - 1) + n;
    }
  }

  /** Evidence for a plan with `n` access nodes can be published exactly when there are two of them. */
  lemma PublishableIffTwoAccessNodes(plans: seq<FaultPlan>, observation: Observation, e: Evidence, n: nat)
    requires ValidPlans(plans) && 1 <= |plans| <= MAX_SCENARIOS
    requires forall p | p in plans :: |p.paths| == n
    requires Accounts(plans, observation, e.scenarios, e.total, e.passed)
    requires e.failed == e.total - e.passed && e.passedAll == (e.passed == e.total)
    ensures Consistent(Publish(e)) <==> n == 2
  {
    EqualPathCounts(plans, n);
    ConsistentIffEightEach(plans, observation, e);
    EightPerScenario(n, |plans|);
  }

  lemma ConsistentIffEightEach(plans: seq<FaultPlan>, observation: Observation, e: Evidence)
    requires ValidPlans(plans) && 1 <= |plans| <= MAX_SCENARIOS
    requires Accounts(plans, observation, e.scenarios, e.total, e.passed)
    requires e.failed == e.total - e.passed && e.passedAll == (e.passed == e.total)
    ensures Consistent(Publish(e)) <==> e.total == |plans| * 8
  {
    CountsDecideConsistency(plans, e);
  }

  lemma CountsDecideConsistency(plans: seq<FaultPlan>, e: Evidence)
    requires ValidPlans(plans) && 1 <= |plans| <= MAX_SCENARIOS && Counts(plans, e.scenarios, e.total, e.passed)
    requires |e.scenarios| == |plans| && forall i | 0 <= i < |plans| :: e.scenarios[i].fault == plans[i].fault
    requires e.failed == e.total - e.passed && e.passedAll == (e.passed == e.total)
    ensures Consistent(Publish(e)) <==> e.total == |plans| * 8
  {
    PublishedVerdicts(e);
  }

  lemma PublishedVerdicts(e: Evidence)
    ensures (forall s | s in Publish(e).scenarios :: s.passed) <==> forall s | s in e.scenarios :: s.passed
  {
    var p := Publish(e);
    assert forall i | 0 <= i < |e.scenarios| ::
      p.scenarios[i] in p.scenarios && e.scenarios[i] in e.scenarios && p.scenarios[i].passed == e.scenarios[i].passed;
  }

  lemma EightPerScenario(n: nat, k: nat)
    requires k >= 1
    ensures 4 * (n * k) == k * 8 <==> n == 2
  {
    if n < 2 {
      assert n * k <= k;
    } else if n > 2 {
      assert n * k >= 3 * k;
    }
  }

  /** A plan built from a design meets the checker's own preconditions. */
  lemma BuiltPlanIsValid(t: Topology, lab: Lab, plan: Plan)
    requires t.Valid() && ValidLab(lab) && Plannable(t, lab) && IsPlan(t, lab, plan)
    ensures ValidPlans(plan.scenarios) && 1 <= |plan.scenarios| <= MAX_SCENARIOS
    ensures forall p | p in plan.scenarios :: |p.paths| == |AccessNodes(t)|
  {
    FaultsAreAuditable(t);
    var accessNodes, faults := Text.SortedSet(AccessNodes(t)), Faults(t);
    Text.SortedSetLength(AccessNodes(t));
    forall i | 0 <= i < |plan.scenarios|
      ensures plan.scenarios[i].fault == faults[i] && |plan.scenarios[i].paths| == |AccessNodes(t)|
              && HasDistinctPaths(plan.scenarios[i])
    {
      assert PlansFault(t, lab, accessNodes, faults[i], plan.scenarios[i]);
      PathsAreDistinct(t, faults[i].cut, accessNodes, plan.scenarios[i].paths);
    }
  }

  lemma PathsAreDistinct(t: Topology, cut: Cut, accessNodes: seq<Name>, paths: seq<AccessPath>)
    requires t.Valid() && Text.StrictlyAscending(accessNodes) && PathsFor(t, cut, accessNodes, paths)
    ensures forall i, j | 0 <= i < j < |paths| :: paths[i].accessNode != paths[j].accessNode
  {
    forall i, j | 0 <= i < j < |paths| ensures paths[i].accessNode != paths[j].accessNode {
      Text.LessIrreflexive(accessNodes[i]);
      assert IsPath(t, cut, accessNodes[i], paths[i]) && IsPath(t, cut, accessNodes[j], paths[j]);
    }
  }

  /** From design to published summary: it is consistent exactly for designs with two access nodes. */
  lemma DesignEvidencePublishes(t: Topology, lab: Lab, plan: Plan, observation: Observation, e: Evidence)
    requires t.Valid() && ValidLab(lab) && Plannable(t, lab) && IsPlan(t, lab, plan)
    requires Accounts(plan.scenarios, observation, e.scenarios, e.total, e.passed)
    requires e.failed == e.total - e.passed && e.passedAll == (e.passed == e.total)
    ensures Consistent(Publish(e)) <==> |AccessNodes(t)| == 2
    ensures forall i | 0 <= i < |e.scenarios| :: Publish(e).scenarios[i].scenarioId == Faults(t)[i].id
  {
    BuiltPlanIsValid(t, lab, plan);
    PublishableIffTwoAccessNodes(plan.scenarios, observation, e, |AccessNodes(t)|);
    forall i | 0 <= i < |e.scenarios| ensures Publish(e).scenarios[i].scenarioId == Faults(t)[i].id {
      assert PlansFault(t, lab, Text.SortedSet(AccessNodes(t)), Faults(t)[i], plan.scenarios[i]);
    }
  }
}
