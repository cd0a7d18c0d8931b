# TelcoNet Sentinel, modelled and proved in Dafny

TelcoNet Sentinel watches a small routed network. It keeps the declared topology as a weighted multigraph and
derives every resilience verdict from it; it records how a failure converges; it keeps bounded telemetry; and
it turns link events into incidents that an operator approves. This project models those four parts and proves
what they promise.

**Weighted graph and fault audit.** `Topology`, `ShortestPath` and `Paths` hold the graph, the breadth-first
search and the lazy-deletion Dijkstra search with early exit and excluded components. The search is proved
equal to a minimum over walks, defined without any algorithm. `Audit` and `FailureDomain` then say what the
verdicts mean in terms of walks and cuts, and `RuntimePlan` and `RuntimeEvidence` say what the N-1 plan
predicts and what its evidence counts. `LabDesign` and `LabPlan` carry this through for the two designs that ship
with the lab, down to the costs and interfaces that the repository's tests expect.

**Convergence protocol.** `Detector` is the greedy detector of live transitions, `Convergence` the rules of one
recorded run and of a bounded store of runs, `ConvergenceStores` the memory store and the SQLite store, and
`StoreAgreement` their equality over every history. `LiveCollector` composes ping tracking, detector and store
into the polling loop, among other clients of the service, and says exactly when the loop completes, times out,
is refused, or finds its run gone.

**Telemetry.** `IsoTime` proves that the order of ISO texts is the order of times. `TelemetryStore` is the
exact top-k specification that both `TelemetryStores` (memory) and `SqliteTelemetry` (tables ordered by text)
meet. `Json`, `TelemetryModels`, `TelemetryConfig` and `TelemetryCollector` take command outputs to a typed
snapshot and the check it must pass; `CollectorReadings` says of each published field what it shows of the printed
documents. `Ingest` is the endpoint as one call, `IngestInterleaving` the same
endpoint as steps that any number of requests interleave.

**Incidents and log arithmetic.** `Incidents` is the specification of the incident desk and its properties over
every run, `IncidentService` the class with its maps and shared recovery plans, whose every run those properties
are proved to hold of, and `DetectionLog` the parser whose loss count is related to the set of probes that got
no reply.

Classes carry the state that the program updates in place, and their methods are proved against specification
functions; the lemmas about those functions are the main results. `Collections`, `Text` and
`Wrappers` hold what several modules share.

## What the code does not keep to

Each point is proved, with the exact condition under which the promise holds.

- Parallel links between two nodes share one lab link, so the runtime plan can expect a detour that its own
  injection removes (`RuntimePlan.ParallelLinksMispredict`); such a design does get a plan
  (`RuntimePlan.ParallelLinksArePlannable`). A link fault's expected metric is the one its injections produce
  exactly when no service path is expected, or some least-cost one avoids every link that shares an interface
  with the failed one; node faults are always predicted (`RuntimePlan.PlanPredictsInjectedFaults`). The
  injections remove the failed link alone exactly when it shares no lab interface
  (`RuntimePlan.LinkInjectionIsolatesLink`), which in a lab that names its interfaces apart means that no other
  link is parallel to it (`RuntimePlan.OnlyParallelLinksShare`).
- The published summary demands eight checks per scenario, so evidence is publishable exactly for designs with
  two access nodes (`RuntimeEvidence.DesignEvidencePublishes`).
- The API bounds event offsets at 60 000 ms while the collector takes any timeout, so a late poll is refused and
  the collector ends with an error although the store would accept the event (`LiveCollector.LatePollIsRefused`;
  the exact condition is `LiveCollector.RefusalCondition`).
- A run that `capacity` younger runs push out is gone for the collector, even between the posts of one poll: its
  next post, or its final read, ends it with an error, although nothing was wrong with the events
  (`LiveCollector.PushedOutIff`, `LiveCollector.CollectorCompletesIffExplained`).
- `docs/TELEMETRY.md` line 61 calls sending the same snapshot again a safe retry. A snapshot offered before is
  answered 200 exactly while it is the latest retained one of its fingerprint, and 409 once it is outranked or
  evicted; it is never created again (`Ingest.RetryIsAcceptedWhileLatest`).
- Between the ingest endpoint's store calls other requests may act. A 201 then need not make the snapshot the
  latest (`IngestInterleaving.CreatedButNotLatest`): it does exactly when nothing better of its fingerprint is
  retained at its save (`CreatedBecomesLatest`). A 200 need not mean that this payload is retained
  (`IngestInterleaving.OkButNotRetained`): it does exactly when no other payload is retained under the identifier
  (`OkMeansPayloadRetained`), and always when callers keep an identifier to one payload
  (`OkIsHonestForOwnIdentifiers`). What every interleaving keeps are `LatestNeverRegresses` and
  `CreatedAtMostOnce`.
- A duplicated ping reply hides a lost packet, in a capture that the parser accepts
  (`DetectionLog.DuplicateHidesLoss`); the reported loss is exact exactly when the replies are clean
  (`DetectionLog.ReportedLossIsLowerBound`).
- The incident fingerprint joins event type and link with a colon, and deduplication looks it up before the event
  type is checked. On a topology with service nodes, one in reach of every access node, some run answers an event
  with another event's incident exactly when a link identifier holds a colon
  (`IncidentService.ServiceConfusesIff`); the service then returns an incident for an event that the analysis
  refuses (`IncidentService.ServiceConfusesColonLink`). The API admits event types in `[a-z_]+` and links in
  `[a-z0-9-]+` only (`src/telconet_sentinel/api.py` lines 59-60), so this takes direct use of the service class.
  On the identifiers that network intents admit, an old incident only ever answers its own event
  (`IncidentService.ColonFreeServiceIsSound`).

## Model

| member | source | states |
|---|---|---|
| Topology.Build | src/telconet_sentinel/topology.py:11-36 | construction succeeds exactly on distinct names and good links; otherwise the error names the first duplicate, or the first link refused and the check that refuses it |
| Topology.Neighbors | src/telconet_sentinel/topology.py:58-71 | the neighbours are listed strictly ascending, and are exactly the nodes one non-excluded link away; unknown nodes and links are errors |
| Topology.HasPath | src/telconet_sentinel/topology.py:73-91 | breadth-first search terminates and answers true exactly when a target is reachable by a walk without the excluded link |
| ShortestPath.Search | src/telconet_sentinel/topology.py:135-153 | the lazy-deletion loop with early exit returns the least cost over all walks from the source to a known target that avoid the cut, or none when there is no such walk |
| ShortestPath.ShortestDistanceExcluding | src/telconet_sentinel/topology.py:110-153 | it fails exactly on unknown names, naming one; otherwise its answer is the minimum over walks, so link order and heap ties do not matter |
| ShortestPath.ShortestDistance | src/telconet_sentinel/topology.py:94-108 | the single-component form is the same minimum for the cut of that component |
| ShortestPath.PoppedIsMinimum | src/telconet_sentinel/topology.py:138-146 | the first current target entry popped carries the least cost of all walks: the reason the early exit is right |
| Paths.ReachableIffDistance | src/telconet_sentinel/topology.py:73-108 | reachability and the existence of a least cost coincide, so both searches agree |
| Paths.LargerCutCostsMore | src/telconet_sentinel/audit.py:85-101 | excluding more components never lowers a cost |
| Paths.UnavailableMeansCutOff | src/telconet_sentinel/audit.py:98-99 | no cost after the fault exactly when every walk to a target uses a failed component |
| Paths.SameCostMeansOptimalSurvives | src/telconet_sentinel/topology.py:110-153 | excluding more leaves a cost as it was exactly when there was none, or some least-cost walk avoids everything excluded |
| Paths.UnchangedMeansOptimalSurvives | src/telconet_sentinel/audit.py:100-101 | an unchanged cost exactly when some minimum-cost walk avoids the fault |
| Paths.NodeFailureIsIsolation | src/telconet_sentinel/runtime_resilience.py:514-529 | failing nodes and failing all their links give one cost, for every source except a failed source that is itself a target |
| Paths.DocumentDeterminesDistance | src/telconet_sentinel/failure_domain.py:110-130 | topologies that differ only in link order and endpoint order agree on every cost under every cut |
| Paths.HeightIsDistance | src/telconet_sentinel/topology.py:110-153 | a potential over the usable links, and a way down it from the source to a target, prove the least cost to be the height: how a distance is checked by hand |
| Audit.CostTestMeansWalks | src/telconet_sentinel/audit.py:98-101 | the comparison of costs is the classification by walks: cut off, degraded, or unaffected, and a cost never drops |
| Audit.ImpactMeans | src/telconet_sentinel/audit.py:103-109 | the impact is an outage when some access node loses its cost, else degraded when some cost rises, else every cost is as it was |
| Audit.AffectedPrefixesAreDeclared | src/telconet_sentinel/audit.py:113-121 | a prefix is reported exactly when some affected access node declares it; the report holds each as often as the affected nodes declare it in total |
| Audit.LinkFaultsAreTheLinks | src/telconet_sentinel/fault.py:44-55 | there is one link fault for each declared link, named after it, with that link alone in its cut |
| Audit.NodeFaultsAreTheTransportNodes | src/telconet_sentinel/fault.py:57-70 | there is one node fault for each aggregation or core node, named after it, with that node alone in its cut |
| Audit.ComparePaths | src/telconet_sentinel/audit.py:81-101 | the inner loop collects exactly the unavailable and the degraded access nodes and both costs of each |
| Audit.ClassifyFault | src/telconet_sentinel/audit.py:78-123 | one scenario's impact is the worst over access nodes, and its affected nodes and prefixes are exactly those, in order, each prefix as often as the affected nodes declare it |
| Audit.AuditFaultScenarios | src/telconet_sentinel/audit.py:46-126 | the audit succeeds exactly on auditable input and classifies every scenario; an error is that of the first check that fails and names the first culprit |
| Audit.CountsPartition | src/telconet_sentinel/audit.py:36-43 | the three impact counts add up to the number of scenarios |
| Audit.CountIsCardinality | src/telconet_sentinel/audit.py:39-43 | a count is the number of scenarios of that impact |
| Audit.PassMeansNoSinglePointOfFailure | src/telconet_sentinel/audit.py:36-37 | the audit passes exactly when every access node keeps a service walk under every fault |
| Audit.SharedRiskDominates | src/telconet_sentinel/audit.py:75-111 | a larger fault costs at least as much for every access node and is at least as severe |
| Audit.SurvivableGroupHasNoCriticalMember | src/telconet_sentinel/failure_domain.py:148-182 | a shared-risk group that is no outage contains no link or node whose own fault is one |
| Audit.SurvivableMembersCanBeAnOutage | src/telconet_sentinel/failure_domain.py:148-182 | the converse fails: a design and a group whose members are each survivable while the group is an outage |
| FailureDomain.FingerprintDeterminesVerdicts | src/telconet_sentinel/failure_domain.py:110-130 | topologies with equal fingerprints get the same verdicts on every fault |
| FailureDomain.FingerprintsAgreeIff | src/telconet_sentinel/failure_domain.py:110-130 | fingerprints agree exactly on designs with the same nodes and the same links, endpoints without order |
| FailureDomain.FingerprintDeterminesResults | src/telconet_sentinel/failure_domain.py:110-130 | designs with equal fingerprints have the same result for every fault, prefixes and costs included |
| FailureDomain.DomainFaultIsWellFormed | src/telconet_sentinel/failure_domain.py:36-46 | a domain of distinct components yields a composite fault under its own identifier, with exactly its links and nodes, well-formed exactly when they are two or more |
| FailureDomain.AuditFailureDomains | src/telconet_sentinel/failure_domain.py:148-182 | it succeeds exactly on a matching fingerprint and known components, and classifies each domain's composite fault, in the order of identifiers |
| FailureDomain.PassingGroupsHaveNoCriticalMember | src/telconet_sentinel/failure_domain.py:148-182 | a domain classified as no outage has no member whose own fault is an outage |
| FailureDomain.AnalyzeLinkDown | src/telconet_sentinel/impact.py:5-57 | the incident analysis succeeds exactly on a known link of an auditable design, classifies by walks and lists the prefixes that the affected nodes declare; an error is that of the first check that fails |
| FailureDomain.IncidentAgreesWithAudit | src/telconet_sentinel/impact.py:5-57 | the incident analysis and the audit engine give the same impact, nodes and prefixes for a failed link |
| RuntimePlan.CountDegrees | src/telconet_sentinel/runtime_resilience.py:494-497 | the loop counts, for every node, the link ends at it |
| RuntimePlan.DegreeCountsIncidentLinks | src/telconet_sentinel/runtime_resilience.py:494-497 | a degree is the number of distinct incident links |
| RuntimePlan.Handshake | src/telconet_sentinel/runtime_resilience.py:494-497 | the degrees add up to twice the number of links |
| RuntimePlan.LinkInjectionIsolatesLink | src/telconet_sentinel/runtime_resilience.py:503-513 | taking down a link's two interfaces removes that link alone exactly when no other link has one of them |
| RuntimePlan.OnlyParallelLinksShare | src/telconet_sentinel/runtime_resilience.py:426-458 | where the lab names interfaces apart, the links that share one are exactly the parallel ones |
| RuntimePlan.NodeInjectionIsolatesNode | src/telconet_sentinel/runtime_resilience.py:514-529 | taking down a node's lab interfaces removes exactly the declared links at that node |
| RuntimePlan.NodeInjectionsListed | src/telconet_sentinel/runtime_resilience.py:515-525 | a node's injections are its own lab interfaces, each once, in the order of their names |
| RuntimePlan.NodePlanPredictsIsolation | src/telconet_sentinel/runtime_resilience.py:514-545 | a node fault's expected metric is the cost its injections leave |
| RuntimePlan.LinkPlanPredictsIsolation | src/telconet_sentinel/runtime_resilience.py:503-545 | a link fault's expected metric is the cost its injections leave exactly when no path is expected or some least-cost one avoids all that they remove |
| RuntimePlan.ExclusiveLinkIsPredicted | src/telconet_sentinel/runtime_resilience.py:503-545 | a link with interfaces of its own is always predicted |
| RuntimePlan.BuildRuntimeN1Plan | src/telconet_sentinel/runtime_resilience.py:461-557 | a plan is built exactly for plannable designs and labs, the plan's own field bounds included, and lists every fault with its injections and expected costs; a refusal names something that is so |
| RuntimePlan.SizesInNumbers | src/telconet_sentinel/runtime_resilience.py:45-49 | the sizes a design may have: 64 nodes, 128 links, 16 access nodes, 128 prefixes, one service prefix, 64 scenarios |
| RuntimePlan.FieldsInNumbers | src/telconet_sentinel/runtime_resilience.py:68-116 | the plan's other bounds: 16 neighbours, names of 64 characters, 16 interfaces to take down at a node |
| RuntimePlan.HostPrefixMeans | src/telconet_sentinel/runtime_resilience.py:116-127 | a host prefix is four octets, alone or with the mask "/32", and is written with the mask |
| RuntimePlan.OctetIsDecimal | src/telconet_sentinel/runtime_resilience.py:116-127 | an octet of the service address is its number in decimal, without leading zeros |
| RuntimePlan.PlanPredictsInjectedFaults | src/telconet_sentinel/runtime_resilience.py:501-545 | in a built plan an expectation is the cost that its injections leave exactly when the fault is a node's, or no path is expected, or some least-cost one avoids all that they remove |
| RuntimePlan.ParallelLinksMispredict | src/telconet_sentinel/runtime_resilience.py:503-513 | with parallel links the plan expects a detour that its injection removes |
| RuntimePlan.ParallelLinksArePlannable | src/telconet_sentinel/runtime_resilience.py:461-557 | such a design does get a plan: three nodes, an IPv4 host prefix, and a lab that names its interfaces apart |
| LabDesign.BaselineServiceLinkIsOutage | tests/unit/test_resilience.py:13-35 | in the baseline design, losing core1--service-host is an outage of both access nodes and both prefixes, from costs 30 and 50 to none |
| LabDesign.BaselineCoreLinkIsDetour | lab/intent.yml:20-50 | in the baseline design, losing agg1--core1 degrades access1 alone, from cost 30 to the 140 that the collector waits for |
| LabPlan.CandidateIsPlannable | src/telconet_sentinel/runtime_resilience.py:461-557 | the dual-homed candidate can be planned in its lab |
| LabPlan.CandidatePlanHasFifteen | tests/unit/test_runtime_n1_matrix.py:48-57 | its plan has fifteen scenarios: one for every link and one for every transport node |
| LabPlan.CandidateServicePrefix | tests/unit/test_runtime_n1_matrix.py:48-54 | its plan probes 10.20.0.10/32 |
| LabPlan.CandidateAdjacencies | tests/unit/test_runtime_n1_matrix.py:58-68 | its plan expects two neighbours at the access nodes and the service host, four elsewhere |
| LabPlan.CandidateAccessLinkPlan | tests/unit/test_runtime_n1_matrix.py:70-87 | for access1--agg1 its plan takes down both ends and expects 140 and 50 |
| LabPlan.CandidateServiceLinkPlan | tests/unit/test_runtime_n1_matrix.py:89-94 | for core1--service-host its plan expects 70 and 50 |
| LabPlan.CandidateCorePlan | tests/unit/test_runtime_n1_matrix.py:96-105 | for core1 its plan takes down eth1 to eth4 and expects 140 and 50 |
| RuntimeEvidence.CheckScenario | src/telconet_sentinel/runtime_resilience.py:583-623 | a scenario lists four checks for each path, each with its access node and what it compares, and passes exactly when all of them do, which is when the observation equals the plan's expectations |
| RuntimeEvidence.BuildRuntimeN1Evidence | src/telconet_sentinel/runtime_resilience.py:566-636 | it succeeds exactly on matching scenario and access sets, naming the first mismatch otherwise; total is four times the paths, and failed is the number of scenarios, access nodes and quantities that disagree, each counted once |
| RuntimeEvidence.MatchMeans | src/telconet_sentinel/runtime_resilience.py:570-590 | plan and observation match exactly when they have the same scenarios and, in each, the same access nodes |
| RuntimeEvidence.PassedAllMeansConformance | src/telconet_sentinel/runtime_resilience.py:619-636 | passed_all, every scenario passed, no failed check, and full agreement with the plan are one and the same |
| RuntimeEvidence.PublishableIffTwoAccessNodes | src/telconet_sentinel/runtime_resilience.py:232-247 | evidence satisfies the published-evidence validator exactly when each scenario has two paths |
| RuntimeEvidence.ConsistentIsDetermined | src/telconet_sentinel/runtime_resilience.py:232-247 | in a consistent summary the scenarios and the number of failed checks determine all other fields |
| RuntimeEvidence.DesignEvidencePublishes | src/telconet_sentinel/runtime_resilience.py:201-247 | from a design's plan to its published summary: consistent exactly with two access nodes |
| Convergence.AppendKeepsSound | src/telconet_sentinel/convergence.py:92-112 | an accepted event keeps a run sound: injection first, distinct allowed kinds, non-decreasing offsets |
| Convergence.AcceptedIffStaysSound | src/telconet_sentinel/convergence.py:92-112 | an event is accepted exactly when its time carries a zone and the extended run is sound again |
| Convergence.RefusalNamesFirstViolation | src/telconet_sentinel/convergence.py:92-112 | an event is refused exactly when it breaks a rule, and the error is the first rule it breaks |
| Convergence.CompleteAtRequiredCount | src/telconet_sentinel/convergence.py:55-59 | a sound run is complete exactly at the required number of events |
| Convergence.CompleteMeans | src/telconet_sentinel/convergence.py:23-59 | a run is complete exactly when every kind of event has occurred, BFD's own only where the profile has BFD |
| Convergence.CompleteIsAbsorbing | src/telconet_sentinel/convergence.py:92-112 | a complete run refuses every event |
| Convergence.IncompleteAcceptsSomething | src/telconet_sentinel/convergence.py:92-112 | an incomplete sound run can always be continued, so only completion closes it |
| Convergence.HistoryKeepsNewestSoundRuns | src/telconet_sentinel/convergence.py:115-167 | over every history the store holds exactly the newest created runs, in order, all sound |
| Convergence.HeldRunsOnlyGrow | src/telconet_sentinel/convergence.py:115-167 | over every later history a run once held only gains events, and is held exactly while it is among the newest created |
| Convergence.CompleteRunsAreFrozen | src/telconet_sentinel/convergence.py:115-167 | over every later history a run once complete is held exactly as it was, until `capacity` younger runs push it out for good |
| Convergence.CreationAnswer | src/telconet_sentinel/convergence.py:78-89 | a creation is refused for its profile, else for an empty endpoint, else for a time without a zone, and otherwise answers the empty run |
| Convergence.LatestAnswer | src/telconet_sentinel/convergence.py:159-161 | over every history the latest run is the one created last, as it is held, and none exactly before the first creation |
| Convergence.GetAnswer | src/telconet_sentinel/convergence.py:155-167 | over every history a run is found exactly while it is among the newest created |
| Convergence.AppendAnswer | src/telconet_sentinel/convergence.py:148-153 | over every history an event is answered by the held run of its identifier: with that run extended, or with the first rule it breaks |
| ConvergenceStores.MemoryStore.CreateRun | src/telconet_sentinel/convergence.py:124-146 | the answer and the new runs are the specification's, eviction included |
| ConvergenceStores.MemoryStore.AppendEvent | src/telconet_sentinel/convergence.py:148-153 | an accepted event extends exactly that run, in place; a refused one changes nothing |
| ConvergenceStores.PruneKeepsNewest | src/telconet_sentinel/convergence.py:328-340 | deleting all but the newest sequence numbers leaves the newest rows, in order |
| ConvergenceStores.CascadeKeepsEvents | src/telconet_sentinel/convergence.py:328-340 | the cascade leaves the events of every remaining run as they were |
| ConvergenceStores.SqliteStore.CreateRun | src/telconet_sentinel/convergence.py:205-231 | the inserted row and the prune give the specification's answer and runs |
| ConvergenceStores.SqliteStore.AppendEvent | src/telconet_sentinel/convergence.py:233-254 | the appended row gives the specification's answer and runs; a refused append leaves the tables unchanged |
| StoreAgreement.Replay | src/telconet_sentinel/convergence.py:115-340 | any history of create, append, get and latest gets the same answers from both stores and leaves the same runs |
| StoreAgreement.LatestAnswered | src/telconet_sentinel/convergence.py:260-265 | in every history both stores answer a query for the latest run with the run created last before it |
| Detector.LiveTransitionDetector.Observe | src/telconet_sentinel/live_collector.py:131-161 | one observation emits exactly the events from the current stage up to the first condition the sample does not show |
| Detector.OutputIsCausalPrefix | src/telconet_sentinel/live_collector.py:131-161 | over any samples the output is a prefix of the causal order, each event once, taken from its emission sample |
| Detector.EmissionsAreCausal | src/telconet_sentinel/live_collector.py:131-161 | each event's condition holds at its emission sample, and emission samples do not go back |
| Detector.EmissionCarriesItsSample | src/telconet_sentinel/live_collector.py:132-150 | each event is of its place's kind, shows its condition, and carries its own sample's offset, metric or reply number |
| Detector.DetectorIsEarliest | src/telconet_sentinel/live_collector.py:131-161 | no causal explanation of the samples reaches an event before the detector does |
| Detector.EmittedIffExplained | src/telconet_sentinel/live_collector.py:131-161 | the first m events are emitted exactly when samples exist that explain them in order |
| LiveCollector.DrainPing | src/telconet_sentinel/live_collector.py:293-305 | draining the queue reports the last reply that follows the injection |
| LiveCollector.RecoveryIffReplyAfterInjection | src/telconet_sentinel/live_collector.py:90-112 | before the injection nothing is a recovery; after it one is reported exactly when some drained reply was seen then or later, and it is the last such reply's |
| LiveCollector.RoundIsNearest | src/telconet_sentinel/live_collector.py:391-391 | rounding is within half a unit, and to the even number in the middle |
| LiveCollector.OffsetIsElapsed | src/telconet_sentinel/live_collector.py:391-391 | an offset is the elapsed time to the nearest millisecond, and 0 when the clock ran backwards |
| LiveCollector.OffsetsAreMonotone | src/telconet_sentinel/live_collector.py:391-391 | a monotone clock gives monotone, non-negative offsets |
| LiveCollector.RecordEvent | src/telconet_sentinel/api.py:578-598 | a post is refused on the API's own bounds without reaching the store, and otherwise gets the store's answer |
| LiveCollector.PollOnce | src/telconet_sentinel/live_collector.py:387-399 | one poll detects and posts the next events, other clients acting before each post; it is refused exactly with the answer to the first post that is inadmissible or comes after the run was pushed out |
| LiveCollector.CollectLive | src/telconet_sentinel/live_collector.py:348-425 | amid other clients, who act before and between all of its requests, the collector completes, times out, is refused or finds its run vanished exactly as the posted events and those calls say; the run it returns carries every event with the time sent |
| LiveCollector.OutcomeIsDetermined | src/telconet_sentinel/live_collector.py:381-425 | exactly one outcome goes with what is posted, what other clients do meanwhile, and the capacity |
| LiveCollector.OthersPushOutIff | src/telconet_sentinel/convergence.py:115-167 | whatever other clients call, a run is held just as it was exactly while fewer than capacity runs are younger |
| LiveCollector.PushedOutIff | src/telconet_sentinel/live_collector.py:379-399 | the collector ends with "run not found" on a post exactly when some post comes after its run was pushed out, before any inadmissible one |
| LiveCollector.RefusalCondition | src/telconet_sentinel/api.py:90-97 | nothing posted is inadmissible exactly when all of it comes within a minute and the failover metric is legal |
| LiveCollector.CollectorCompletesIffExplained | src/telconet_sentinel/live_collector.py:381-425 | within the field bounds the collector completes, finds its run vanished, times out or is refused exactly as the samples explain the four events in causal order or not, and as capacity younger runs are added before a post, before the final read, or later |
| LiveCollector.CompletedRunContents | src/telconet_sentinel/live_collector.py:379-415 | a completed run holds the injection and then the four events, each with its own sample's readings and the time sent with it |
| LiveCollector.LatePollIsRefused | src/telconet_sentinel/api.py:90-97 | an event at 60 001 ms is refused by the API although the run would accept it |
| IsoTime.FieldOrderIsInstantOrder | src/telconet_sentinel/telemetry_models.py:162-167 | comparing UTC date-times field by field is comparing instants |
| IsoTime.NextDayHasNextNumber | src/telconet_sentinel/telemetry_models.py:162-167 | days are numbered one after the other, as the calendar runs |
| IsoTime.GregorianAnchors | src/telconet_sentinel/telemetry_models.py:162-167 | month lengths and leap years are the Gregorian ones, day 719 163 is 1970-01-01, and the clock counts in microseconds |
| IsoTime.PadOrder | src/telconet_sentinel/telemetry_store.py:129-134 | zero-padded decimals of one width compare as their numbers |
| IsoTime.FractionOrder | src/telconet_sentinel/telemetry_store.py:129-134 | a missing fraction sorts before every fraction, because the offset sign sorts before the point |
| IsoTime.IsoOrder | src/telconet_sentinel/telemetry_store.py:119-143 | the order of ISO texts is the order of times, and the text determines the time, though fraction widths differ |
| IsoTime.IsoReadsBack | src/telconet_sentinel/telemetry_store.py:129-142 | every field of the text reads back as the field of the date-time, in its fixed width and with its separator |
| TelemetryStore.TextKeyAgrees | src/telconet_sentinel/telemetry_store.py:129-136 | the text key the SQLite store compares orders snapshots as the memory store's key does |
| TelemetryStore.KeyIsTimeThenIdentifier | src/telconet_sentinel/telemetry_store.py:129-136 | a snapshot ranks below another when it is earlier, or of the same time with the lesser identifier |
| TelemetryStore.SaveKeepsTop | src/telconet_sentinel/telemetry_store.py:33-51 | one save keeps the store at the top k of what was offered, and answers true exactly when the snapshot was not held and is retained |
| TelemetryStore.HistoryKeepsTop | src/telconet_sentinel/telemetry_store.py:33-51 | after any history the store holds exactly the k largest snapshots offered, every dropped one strictly below |
| TelemetryStore.ArrivalOrderIsIrrelevant | src/telconet_sentinel/telemetry_store.py:33-51 | what is retained depends only on what was offered |
| TelemetryStore.LatestNeverMovesBack | src/telconet_sentinel/telemetry_store.py:53-63 | the latest snapshot of a fingerprint never moves back, whatever else is saved or evicted |
| TelemetryStore.LatestMeans | src/telconet_sentinel/telemetry_store.py:53-63 | the latest is the highest of those with the fingerprint, or of all held when none is asked for |
| TelemetryStore.RecentMeans | src/telconet_sentinel/telemetry_store.py:65-78 | the recent ones are all those with the fingerprint, or all held when none is asked for, newest first |
| TelemetryStores.MemoryTelemetryStore.Save | src/telconet_sentinel/telemetry_store.py:33-51 | the dictionary rebuilt from the sorted entries is the specification's retained set; a refused save changes nothing |
| TelemetryStores.MemoryTelemetryStore.LatestSnapshot | src/telconet_sentinel/telemetry_store.py:53-63 | the largest retained snapshot of the fingerprint, or none |
| TelemetryStores.MemoryTelemetryStore.Recent | src/telconet_sentinel/telemetry_store.py:65-78 | the retained snapshots of the fingerprint, newest first |
| SqliteTelemetry.SqliteTelemetryStore.Save | src/telconet_sentinel/telemetry_store.py:102-145 | the row operations, ordered by text, give the same answer and the same retained set |
| SqliteTelemetry.SqliteTelemetryStore.Open | src/telconet_sentinel/telemetry_store.py:82-100 | opening an existing table keeps its newest rows |
| SqliteTelemetry.SqliteTelemetryStore.LoadRecent | src/telconet_sentinel/telemetry_store.py:154-172 | filtering the ordered rows gives the newest of the fingerprint, cut at the limit |
| SqliteTelemetry.Replay | src/telconet_sentinel/telemetry_store.py:25-186 | any history of saves, latest and recent queries gets the same answers from both stores, which are those of the exact top-k, and leaves the same snapshots |
| TelemetryConfig.ValidateSnapshot | src/telconet_sentinel/telemetry_config.py:303-351 | a snapshot is accepted exactly when every router's record conforms to its target; otherwise the problem is one that the first failing router has |
| TelemetryConfig.ConformsMeans | src/telconet_sentinel/telemetry_config.py:310-351 | a successful record conforms exactly when it is about exactly the bound interfaces, OSPF peers and BFD peers and one service route; another when it oversteps nothing |
| TelemetryModels.FieldRules | src/telconet_sentinel/telemetry_models.py:19-25 | the field rules in numbers: counters of 64 bits, identifiers of 1 to 64 allowed characters, hexadecimal fingerprints, error lines |
| TelemetryModels.ValidRecordMeans | src/telconet_sentinel/telemetry_models.py:78-121 | a valid record is up without an error or unknown with one and empty, keeps its counters within 64 bits, and names each interface and prefix once |
| TelemetryModels.SessionsAreOnInterfaces | src/telconet_sentinel/telemetry_models.py:122-156 | in a valid record every session and egress is on one of its interfaces, and no session is listed twice |
| TelemetryModels.OneRecordPerRouter | src/telconet_sentinel/telemetry_models.py:169-176 | a valid snapshot has six records, one for each baseline router |
| TelemetryConfig.ValidateIngest | src/telconet_sentinel/telemetry_config.py:354-368 | acceptance also demands an observation no more than a minute ahead of the server |
| TelemetryConfig.AdmittedWithinAMinute | src/telconet_sentinel/telemetry_config.py:354-368 | a conforming snapshot is admitted exactly while it is at most 60 s ahead of the server |
| TelemetryCollector.ParseInterfaces | src/telconet_sentinel/telemetry_collector.py:74-116 | one observation per bound interface, in order, from the last entry of that name, unknown when there is none |
| TelemetryCollector.ParseOspf | src/telconet_sentinel/telemetry_collector.py:133-163 | it fails exactly on an unbound or repeated interface; a peer not seen is down |
| TelemetryCollector.WalkFindsEveryMapping | src/telconet_sentinel/telemetry_collector.py:166-174 | the walk yields exactly the mappings inside a document, at any depth |
| TelemetryCollector.ParseBfd | src/telconet_sentinel/telemetry_collector.py:177-202 | it fails exactly on an unbound or repeated interface; a peer not reported is unconfigured and unknown |
| TelemetryCollector.ParseRoute | src/telconet_sentinel/telemetry_collector.py:205-244 | the record shows the first selected and installed entry and its first forwarding next hop |
| CollectorReadings.PublishedRecordShowsDocuments | src/telconet_sentinel/telemetry_collector.py:74-244 | every successful record shows its four documents field by field: counters under their own paths, states by their text, peers by their own entries, the route's metric and egress |
| CollectorReadings.StateIsRead | src/telconet_sentinel/telemetry_collector.py:65-71 | a text, stripped, is up when it begins with the word in any case, unknown when it is empty or spells "unknown", down otherwise |
| CollectorReadings.InterfaceIsRead | src/telconet_sentinel/telemetry_collector.py:96-116 | each counter is the non-negative integer under its own path, and 0 exactly when there is none |
| CollectorReadings.OspfShowsItsEntries | src/telconet_sentinel/telemetry_collector.py:137-163 | a neighbour's state is what an entry on its interface says, `converged` before `nbrState`, and down when there is none |
| CollectorReadings.BfdShowsItsEntries | src/telconet_sentinel/telemetry_collector.py:181-202 | a peer is configured exactly when some mapping, at any depth, is about its interface, and has the state told there |
| CollectorReadings.RouteShowsItsEntry | src/telconet_sentinel/telemetry_collector.py:205-244 | a present route shows the metric of the first entry in use and the egress of its first forwarding next hop; it is absent exactly when no entry is in use |
| CollectorReadings.LinkEntryIsShown | src/telconet_sentinel/telemetry_collector.py:96-116 | a printed interface entry with its counters told apart |
| CollectorReadings.RouteEntryIsShown | src/telconet_sentinel/telemetry_collector.py:205-244 | a printed route entry with its metric and egress |
| CollectorReadings.FailureNamesFirstCommand | src/telconet_sentinel/telemetry_collector.py:272-298 | a failed record carries nothing but the reason, word for word, of the first command that gave nothing usable |
| TelemetryCollector.ShownIsComplete | src/telconet_sentinel/telemetry_collector.py:300-309 | a record of four usable outputs is complete, and valid exactly when the route leaves by a bound interface |
| TelemetryCollector.CollectRouter | src/telconet_sentinel/telemetry_collector.py:272-309 | the first unusable output decides the failure reason; otherwise a complete record, or the collector's own error |
| TelemetryCollector.ContributionConforms | src/telconet_sentinel/telemetry_collector.py:272-321 | each router is either failed without observations or carries exactly what is bound |
| TelemetryCollector.CollectedIsAccepted | src/telconet_sentinel/telemetry_collector.py:312-325 | whatever the commands print, the snapshot is valid and the check for the same binding accepts it |
| TelemetryCollector.CollectSnapshot | src/telconet_sentinel/telemetry_collector.py:312-325 | the loop builds such a snapshot for every binding and every set of outputs |
| Ingest.DecisionLaw | src/telconet_sentinel/api.py:410-452 | 200 means it was and is the latest; 201 means it becomes the latest, strictly newer; 409 names its cause and leaves the latest as it was |
| Ingest.SavedBecomesLatest | src/telconet_sentinel/api.py:422-437 | a saved snapshot becomes the latest exactly when it outranks the one that was |
| Ingest.RetryIsAcceptedWhileLatest | src/telconet_sentinel/api.py:422-451 | a snapshot offered before, retained or evicted, is answered 200 exactly while it is the latest retained of its fingerprint, 409 otherwise, and changes nothing |
| Ingest.IngestSnapshot | src/telconet_sentinel/api.py:410-452 | the handler answers 200 exactly for the current latest and 201 exactly for an admissible newer one, and only 201 changes the store |
| IngestInterleaving.LatestNeverRegresses | src/telconet_sentinel/api.py:422-451 | in every interleaving of any number of requests and other saves, the latest of a fingerprint never moves back |
| IngestInterleaving.CreatedAtMostOnce | src/telconet_sentinel/api.py:432-451 | in every interleaving at most one request carrying a snapshot is answered 201 |
| IngestInterleaving.CreatedBecomesLatest | src/telconet_sentinel/api.py:422-437 | a 201 makes the snapshot the latest exactly when nothing better of its fingerprint is retained at its save |
| IngestInterleaving.UndisturbedCreation | src/telconet_sentinel/api.py:422-437 | when the latest is still the one read, a 201 is strictly newer and becomes the latest |
| IngestInterleaving.UninterruptedCall | src/telconet_sentinel/api.py:410-452 | three steps in a row are the uninterrupted call |
| IngestInterleaving.CreatedButNotLatest | src/telconet_sentinel/api.py:422-437 | two requests that both read an empty store can both be answered 201, the older one without becoming the latest |
| IngestInterleaving.OkButNotRetained | src/telconet_sentinel/api.py:438-451 | a turned-away snapshot can be answered 200 when another payload takes its identifier before the last read |
| IngestInterleaving.OkMeansPayloadRetained | src/telconet_sentinel/api.py:438-451 | a request answered 200 has its payload retained exactly when no other payload is retained under its identifier |
| IngestInterleaving.OkIsHonestForOwnIdentifiers | src/telconet_sentinel/api.py:438-451 | in every interleaving in which an identifier stands for one payload, a 200 means that the payload is retained |
| Incidents.SameFingerprintIff | src/telconet_sentinel/service.py:41-41 | two events share a fingerprint exactly when they are one, or one type extends the other past a colon that the link makes up for |
| Incidents.TypesCollideIff | src/telconet_sentinel/service.py:41-41 | two event types can collide on some links exactly when one of them, with a colon, begins the other |
| Incidents.IndexDomain | src/telconet_sentinel/service.py:67-75 | a desk in step has both side maps on exactly the retained fingerprints, and the index points to a retained incident |
| Incidents.RetainedCount | src/telconet_sentinel/service.py:70-75 | the order lists each retained incident once, so its length is the number retained |
| Incidents.InsertKeepsSync | src/telconet_sentinel/service.py:67-69 | an insertion keeps the maps in step |
| Incidents.DropKeepsSync | src/telconet_sentinel/service.py:70-75 | evicting the oldest keeps the maps in step: a fingerprint leaves the side maps exactly with its last incident |
| Incidents.After | src/telconet_sentinel/service.py:38-89 | over every run of ingests and approvals the maps are in step and within the maximum |
| Incidents.RetainsTheNewest | src/telconet_sentinel/service.py:67-76 | over every run the desk retains exactly the newest incidents created, in order |
| Incidents.IndexesAreHistory | src/telconet_sentinel/service.py:38-76 | over every run the side maps hold the last sighting and the last incident created for a fingerprint |
| Incidents.OldIncidentReturnedIff | src/telconet_sentinel/service.py:42-51 | an event is answered with an old incident exactly when the last one created for it is retained, awaits approval, and was last seen within the window |
| Incidents.OldAnswerIsSameOrSplits | src/telconet_sentinel/service.py:40-51 | over every run that records link_down incidents on given links only, an event answered with an old incident is that incident's own event, or splits the incident's link at a colon |
| Incidents.DeduplicationConfusesIff | src/telconet_sentinel/service.py:40-55 | for any set of links, some run that records link_down incidents on them only answers an event with another event's incident exactly when one of them holds a colon |
| Incidents.ColonFreeDeduplicationIsSound | src/telconet_sentinel/service.py:40-55 | on links without a colon an event answered with an old incident is a link_down of that incident's own link |
| Incidents.ApprovedAtMostOnce | src/telconet_sentinel/recovery.py:21-25 | over every run an incident is approved at most once, and its status says whether it has been |
| Incidents.ApprovalAnswer | src/telconet_sentinel/service.py:78-89 | over every run an approval finds the incident exactly while it is among the newest created, and succeeds once |
| Incidents.IngestAnswer | src/telconet_sentinel/service.py:38-76 | over every run an event gets the last incident of its fingerprint, or its diagnosis's refusal, or an incident of its own |
| IncidentService.RecoveryPlan.ApproveRecovery | src/telconet_sentinel/recovery.py:21-25 | approval succeeds only while awaiting, and leaves the plan approved |
| IncidentService.ServiceConfusesColonLink | src/telconet_sentinel/service.py:40-55 | on a topology with a link "x:y", its incident answers an event of type "link_down:x" on "y" that the analysis refuses |
| IncidentService.ServiceConfusesIff | src/telconet_sentinel/service.py:38-76 | on a topology, some run of events diagnosed by its impact analysis answers an event with another event's incident exactly when the topology has service nodes, one in reach of every access node, and one of its links holds a colon |
| IncidentService.ColonFreeServiceIsSound | src/telconet_sentinel/service.py:38-76 | on a topology whose links hold no colon, over every run, an event answered with an old incident is that incident's own |
| IncidentService.RetainedAreAnalyzed | src/telconet_sentinel/service.py:53-66 | over every run each retained entry holds what the impact analysis makes of its own event |
| IncidentService.Service.IngestEvent | src/telconet_sentinel/service.py:38-76 | the maps after an ingest, and its answer, are the specification's, the diagnosis being the impact analysis; a new incident's plan restores the link of its own event; a refused event changes nothing, other incidents stay the objects they were, and a new plan is a fresh one |
| IncidentService.Service.Register | src/telconet_sentinel/service.py:67-76 | insertion followed by the eviction loop; every other retained incident is the object it was |
| IncidentService.Service.Get | src/telconet_sentinel/service.py:78-83 | the retained incident itself, shared with the caller, or not found |
| IncidentService.Service.ApproveIncident | src/telconet_sentinel/service.py:85-89 | only that incident's plan changes, once; the maps stay as they are |
| IncidentService.Replay | src/telconet_sentinel/service.py:19-89 | any sequence of ingests and approvals leaves the service as the specification says and gets its answers, every diagnosis being what the impact analysis makes of the event; every retained plan carries its own incident's identifier and restores the link of its event, which the analysis is about |
| DetectionLog.ReadLines | src/telconet_sentinel/bfd_comparison.py:27-71 | the line loop keeps the last header, event, summary and peer row of each kind and every reply in order |
| DetectionLog.ReadingIsUnique | src/telconet_sentinel/bfd_comparison.py:27-71 | what the line loop leaves is determined by the lines, so the parse result is |
| DetectionLog.MostCommon | src/telconet_sentinel/bfd_comparison.py:92-92 | the baseline TTL is the most frequent one, the first encountered among equals |
| DetectionLog.ParseDetectionLog | src/telconet_sentinel/bfd_comparison.py:18-127 | it succeeds exactly on measurable captures with a complete header; the detection time is the smallest number of milliseconds that covers the delay |
| DetectionLog.CompleteCaptureMeans | src/telconet_sentinel/bfd_comparison.py:74-84 | a capture is complete exactly when it has a header, both state blocks, both marks, a summary and a reply |
| DetectionLog.LossCountsUnanswered | src/telconet_sentinel/bfd_comparison.py:101-106 | a reported loss never exceeds the unanswered probes, and equals them exactly when no reply up to the changed one repeats or belongs before the fault |
| DetectionLog.IncreasingLossIsExact | src/telconet_sentinel/bfd_comparison.py:101-106 | with strictly increasing sequences the loss is never negative and counts the probes with no reply anywhere in the capture |
| DetectionLog.ReportedLossIsExact | src/telconet_sentinel/bfd_comparison.py:101-118 | the report of a capture with strictly increasing sequences counts the probes that were never answered |
| DetectionLog.ReportedLossIsLowerBound | src/telconet_sentinel/bfd_comparison.py:101-118 | on any capture the reported loss is a lower bound, exact exactly for clean replies |
| DetectionLog.DuplicateHidesLoss | src/telconet_sentinel/bfd_comparison.py:18-127 | a capture that the parser accepts, with its whole report: one duplicated reply makes it report one lost packet where two probes got no reply |

## Left out

- Text and files: YAML, JSON and regular-expression matching, file size limits, atomic writes and symlink
  checks. The model starts from parsed values; validators that parsing relies on are preconditions.
- Docker, tc, ping, threads, queues, HTTP and FastAPI routing. Command outputs, samples, clocks and the order of
  other clients' calls are parameters.
- Hashing: SHA-256 is taken to be injective, so fingerprints are the hashed document or text itself.
- The SQLite engine: each store call is one atomic step on relations; connections, transactions, rollbacks and
  locks are not modelled, nor is the JSON round trip of stored payloads.
- LiveCollector.CollectLive: the service it posts to is a value advanced by the specification that both stores
  are proved against, so aliasing of run objects between service and collector is not captured there; the
  `sleep` and `monotonic` deadline are the given sequence of polls. Other clients act at any time, but never post
  to the collector's run or draw its identifier. The health check, the baseline probe and the wait for a first
  ping reply come before the modelled part.
- StoreAgreement.Replay: the text form in which the SQLite store keeps a date-time is taken to read back as the
  same date-time.
- RuntimePlan.BuildRuntimeN1Plan: an IPv4 host prefix counts with its mask written "/32" or left away, not as a
  netmask or with leading zeros; the spelling of names and identifiers, beyond the length of node names, is what
  intent and lab were loaded with.
- Ingest.IngestSnapshot: written over the memory store; that the SQLite store answers alike is `SqliteTelemetry.Replay`.
- ShortestPath.HeapPop: the binary heap is a multiset whose least entry is removed; its array layout is not modelled.
- TelemetryCollector.ParseInterfaces: stripping and lower-casing of states covers ASCII text only. A mapping is
  the sequence of its members.
- TelemetryModels.RouteOk: the canonical form of an IP prefix is not checked; the only prefix that occurs is the
  bound one, which passed the same check when the configuration was loaded.
- TelemetryConfig: how a binding is assembled from the three files; its validators are the precondition.
- FailureDomain.AnalyzeLinkDown: the evidence sentences of the analysis.
- Incidents.After: identifiers are fresh values; a collision of the 48 random bits kept of an identifier is not
  modelled. Clock readings are integers.
- DetectionLog.ParseDetectionLog: the metric and the hops of the state blocks and the loss percentage, which are
  copied into the report; an event line whose time is no number.
- The comparison of two detection logs, percentile summaries, Prometheus rendering, dashboards, metric
  validation and report rendering: formatting, or arithmetic on floats with little to prove.
- FRR, OSPF and BFD themselves: the program observes them and does not implement them.
