# Incident workflow: dispatch, routing, state and proof

A Dafny model of the four parts of the incident workflow whose correctness is an argument rather than a
lookup, with proofs about every input, every run or every reachable state. `dafny verify dfyconfig.toml`
checks it.

**Dispatch** (`Orders`, `Strings`, `Constraints`, `Objective`, `Search`, `Choice`, `Queue`, `Solver`, `Plans`). Twelve
hard constraints over one candidate visit, the pruned search for a start time, the lexicographic choice, the
placement queue, the greedy solve over mutable crew routes, and what every plan keeps.

**Decision chains and topology** (`Chains`, `Topology`). The little compiler that flattens chained questions
into one edge, the static checker that makes it safe, the edges of the parent graph, and why a run stops.

**Replayed, nested state** (`Lifecycle`, `Reducers`, `Revisions`, `Runs`, `Stages`, `Gates`). The status tables, the
channel reducers under replay and subgraph echo, revision channels and their views, the bounded-loop guard
over whole runs with the stages' inner runs inside them, approval ids and the life of an approval gate.

**Breaker, diagnosis, restoration** (`Breaker`, `Diagnosis`, `Restoration`). The circuit breaker with its
retry loop, the hypotheses and the concluded confidence, the restoration verdict, the stability decision and
the closure record's proof obligations.

Loops and mutable objects of the original are methods and classes here (`Solver.Route`,
`Breaker.CircuitBreaker`, and every method named in the table), each proved equal to a function of its
inputs; the properties are then lemmas about those functions.

## Reading notes

- Crew, requirement and metric identifiers are integers standing for strings under their ordering. Instants
  and durations are whole microseconds; the time of day is the instant modulo a day.
- Scores, weights and metrics are exact reals. Priors, posteriors and the concluded confidence are rounded to
  four decimals as the source rounds them, ties to even; floating-point errors, infinities and not-a-number
  are not modelled.
- Travel is an arbitrary function of the crew's position and the job, never negative. Job durations are
  positive and requirement and crew ids distinct where a lemma says so.
- SHA-256 is taken to be injective: an approval id is the material it digests. `reason_code`, `conditions`
  and `modified_action` of a reply are taken to be well typed and left out; the fields the source passes
  through `str` are strings. A role is absent, text, or some other JSON value.
- Every record trims its own string fields (src/lpr_cpe/domain/base.py:48), so where a record demands a
  non-empty string it is `Strings.Written`: something is left after trimming. `strip` in the parsers removes
  four characters more than that trimming does. Strings a record is given elsewhere are taken as trimmed
  already; trimming an explanation leaves its leading code alone. Strings hold no lone surrogates.
- `lower` maps the ASCII capitals and the Kelvin sign, which is all that can make an ASCII word; the words it
  is compared with are ASCII.
- Routers, node bodies, policy answers and clocks are arbitrary parameters. A run is "run node, merge its
  update some number of times, take the edge"; a stage is a run of its own wrapped nodes over guarded
  edges, entered with a copy of the parent's state and written back to it whole.
- `Topology.WellFormed` holds what Python dicts and the graph library guarantee before the checker runs: keys
  and node registrations are distinct, there is a first step, and no node carries the name of the end.
- An explanation keeps its leading code and separators; its prose is shortened. Its twelve codes, the
  constraint order and the fallback texts the parser depends on are the source's.
- A breaker history is sequential and each call ends in a success or an adapter error.

## Where the code and its comments part ways

The model follows the code; each point names the member that shows it.

- "Later starts score no better" (src/lpr_cpe/dispatch/optimizer.py:290-295) fails when customer windows are
  stated but not enforced and one holds the job: `Choice.LaterNeverBetterIff` says exactly when it holds, for
  island jobs too, and `Choice.FirstFeasibleIsEnoughIff` exactly when stopping at the first feasible start
  costs nothing.
- Intersecting with unenforced customer windows can hide the only start a building allows:
  `Search.UnenforcedWindowsHideAStart`.
- "A job that does not fit a window at its opening will not fit it later"
  (src/lpr_cpe/dispatch/optimizer.py:130-132) fails for island jobs: a window that opens past the evening
  cutoff and lasts beyond midnight is tried at its opening only, and the midnight start is lost:
  `Search.CutoffHidesMidnight`. `Search.PruningIsLosslessIff` gives the exact condition for every job.
- "No crew slots were supplied" is also said when the latest finish rules out the earliest start of every
  crew: `Choice.NoAttemptsIff`.
- The queue looks one level deep: `Queue.DeepOrderFails`, and `Queue.OnePassIsEnoughIff` for exactly how deep
  is too deep. Placement is nevertheless topological at any depth: `Plans.PlacementIsTopological`.
- The topology check does not look for an answer spelled like the guard's sentinel, which would be diverted
  to the end silently: `Topology.SentinelCollisionIsAccepted` and `Topology.CascadesStopOnPurposeIff`. Every answer still has
  a destination and every run is still bounded: `Topology.EveryAnswerIsMapped`, `Stages.GraphRunsAreBounded`.
- A step override of zero falls through to the settings, and the guard then still names the override as the
  limit's owner: `Runs.OwnerNamesTheLimitIff`.
- `latest_by_id` is the last write per id only while no id goes back to an equal earlier revision:
  `Revisions.ViewIsCurrentIff`.
- Two incidents can share an approval id exactly when one of them is the other followed by the separator, an
  approval kind, the separator and a number, and then nothing or another separator:
  `Gates.IncidentsShareAnIdIff`. Containing the separator is necessary for that, and not enough.
- Turning a reply into a decision is documented as total (src/lpr_cpe/graph/interrupts.py:143), but raises
  exactly for a mapping whose role is truthy and not text, and for one in which a named, permitted person
  rejects and gives nothing but white space as the rationale, which the placeholder does not replace and the
  record then trims away: `Gates.ReadingRaisesIff`.
- A retry asked for fewer than one attempt still calls once if the breaker admits it, and sleeps a base delay
  before giving up if that call fails retryably: `Breaker.FewerThanOneAttempt`.
- Findings may carry negative scores. Hypotheses refuse to be built exactly when some posterior is more than
  half a rounding step below zero, or a ruled-out domain has a reason that is empty or white space:
  `Diagnosis.HypothesesBuildIff`. The posteriors are all non-negative exactly when no two suspected domains
  have weights of opposite sign: `Diagnosis.PosteriorsAreNonNegativeIff`.
- A pending validation whose window has closed is sent back to diagnosis, not observed further, and a failed
  one whose window is open is observed further: `Restoration.RouteAndOutcomeDiffer`.
- The validation record's own validator does not require a completed window, as the routing comment says it
  does: `Restoration.ValidatorAcceptsAnEarlyPass`. `Restoration.PassesIff` shows the producer does.
- The closure record guarantees proof or a signature for two closure codes and no other:
  `Restoration.ProofBeforeClosureIff`.

## Model

| member | source | states |
|---|---|---|
| `Constraints.CheckIsExact` | src/lpr_cpe/dispatch/constraints.py:157-366 | Each of the twelve checks refuses exactly when its condition on crew, stock, dependencies or time is not met |
| `Constraints.HasRoomIff` | src/lpr_cpe/dispatch/constraints.py:142-154 | Fitting a list of windows is fitting one of them whole: it opens no later than the start and closes no earlier than the end |
| `Constraints.ShortfallMeans` | src/lpr_cpe/dispatch/constraints.py:157-215 | The shortfall is the number of missing items for skills, equipment and van stock, of all items when no depot has them, and one for every other constraint |
| `Constraints.PermanentIsReportedFirst` | src/lpr_cpe/dispatch/constraints.py:369-395 | A candidate that any clock-free reason but safety refuses is reported under such a reason |
| `Constraints.FeasibleMeans` | src/lpr_cpe/dispatch/constraints.py:369-406 | A candidate is feasible iff eight clock-free and four clock-reading conditions hold |
| `Constraints.ReportsAgree` | src/lpr_cpe/dispatch/constraints.py:389-406 | No first violation, an empty violation list and twelve clear checks are one fact; the first violation heads the list |
| `Constraints.SatisfiedAreTheRest` | src/lpr_cpe/dispatch/constraints.py:409-418 | The satisfied codes are exactly those whose check is clear |
| `Constraints.CodeRoundTrips` | src/lpr_cpe/dispatch/constraints.py:118-134 | Whatever prose follows, an explanation opening with a code parses back to that code |
| `Constraints.SatisfiedCarriesNoCode` | src/lpr_cpe/dispatch/constraints.py:123-134 | An acceptance note parses to no code |
| `Objective.SlaUrgencyMeans` | src/lpr_cpe/dispatch/objective.py:68-91 | Urgency is full iff the remaining budget does not exceed the job, and beyond that is exactly the job's share of the budget |
| `Objective.BlastFractionMeans` | src/lpr_cpe/dispatch/objective.py:94-103 | Full from the network threshold on, nothing at nobody, proportional between |
| `Objective.SkillOverlapMeans` | src/lpr_cpe/dispatch/objective.py:106-119 | The share of the distinct required skills that are held, full iff all are |
| `Objective.AppointmentFitMeans` | src/lpr_cpe/dispatch/objective.py:122-132 | One iff a stated window holds the job, a half iff none is stated |
| `Objective.OneWeightOneTerm` | src/lpr_cpe/dispatch/objective.py:29-56 | Setting one weight to zero moves exactly one term, to zero |
| `Objective.PerfectScoreIff` | src/lpr_cpe/dispatch/objective.py:135-159 | No score exceeds the sum of the weights, and it is reached iff every term is full and nothing is driven |
| `Objective.UrgencyRankRises` | src/lpr_cpe/dispatch/objective.py:162-183 | Queue urgency rises with SLA urgency, with affected customers up to the threshold, and with priority |
| `Strings.TrimTakesTheEnds` | src/lpr_cpe/domain/base.py:48 | A record trims white space from both ends, all of it, and nothing else |
| `Strings.StripTakesTheEnds` | src/lpr_cpe/security/rbac.py:55-67 | The parsers' strip takes all of Python's white space from both ends and nothing else |
| `Search.WindowStarts` | src/lpr_cpe/dispatch/optimizer.py:123-141 | Candidate starts begin with the earliest, strictly ascend, and contain every usable window opening |
| `Search.StartsAreExactly` | src/lpr_cpe/dispatch/optimizer.py:123-141 | The starts tried are exactly the earliest and the openings of windows not over by then, or twelve hours of five-minute steps |
| `Search.IntersectionIsExact` | src/lpr_cpe/dispatch/optimizer.py:388-410 | A job fits an intersected window iff it fits some customer and some building window, an empty list asking nothing |
| `Search.StartsForCrew` | src/lpr_cpe/dispatch/optimizer.py:317-373 | The search loop returns exactly the attempts up to the first feasible start, permanent refusal or latest-finish cutoff |
| `Search.TriesSkipNothing` | src/lpr_cpe/dispatch/optimizer.py:340-373 | The attempts are the verdicts on the first listed starts, none skipped, and stop early only past the latest finish, at a feasible start or at a permanent refusal |
| `Search.TriesFindEarliest` | src/lpr_cpe/dispatch/optimizer.py:317-373 | Over any ascending starts a feasible attempt appears iff some listed start is acceptable; it is last and earliest |
| `Search.PermanentIsTimeless` | src/lpr_cpe/dispatch/optimizer.py:375-386 | A refusal with a permanent code makes every other start infeasible too |
| `Search.ListedStartsSuffice` | src/lpr_cpe/dispatch/optimizer.py:123-141 | With absent or enforced windows that no island cutoff cuts, every acceptable instant has an acceptable listed start no later than it |
| `Search.SearchIsComplete` | src/lpr_cpe/dispatch/optimizer.py:317-410 | Under the same condition the pruned search finds a start iff any real instant from the earliest on would do, and finds the earliest of all |
| `Search.UnenforcedWindowsHideAStart` | src/lpr_cpe/dispatch/optimizer.py:388-410 | With customer windows stated and not enforced, some crew's only start is missed, for mainland jobs and for island jobs whose cutoff allows any start |
| `Search.CutoffHidesMidnight` | src/lpr_cpe/dispatch/optimizer.py:130-137 | With an island cutoff before the last instant of the day, a building open from that instant past midnight hides the midnight start |
| `Search.MidnightIsListed` | src/lpr_cpe/dispatch/optimizer.py:135-138 | Where a customer window opens at the midnight in between, that midnight is tried |
| `Search.PruningIsLosslessIff` | src/lpr_cpe/dispatch/optimizer.py:398-410 | Pruning loses nothing for a job, mainland or island, iff its windows are absent or enforced and no cutoff can fall inside one, or no instant is acceptable at all; without customer windows the cutoff must be the last instant of the day |
| `Choice.ScoreIsTimeless` | src/lpr_cpe/dispatch/objective.py:122-159 | With absent or enforced windows all feasible starts of one crew score the same |
| `Choice.FeasibleFits` | src/lpr_cpe/dispatch/objective.py:106-132 | Every feasible candidate holds all skills and, with absent or enforced windows, has the same fit |
| `Choice.TravelDecides` | src/lpr_cpe/dispatch/objective.py:135-159 | Between feasible candidates for one job, windows absent or enforced, the other terms cancel: a better score means less travel, an equal one equal travel, and all score alike when travel has no weight |
| `Choice.LaterNeverBetterIff` | src/lpr_cpe/dispatch/optimizer.py:290-295 | Later starts never score better iff windows are absent or enforced, the appointment weight is zero, or no stated window holds the job at a start the island cutoff allows |
| `Choice.Best` | src/lpr_cpe/dispatch/optimizer.py:414-423 | The best attempt is feasible and unbeaten under score, start, crew; none iff no attempt is feasible |
| `Choice.BestIsGreatest` | src/lpr_cpe/dispatch/optimizer.py:414-423 | No feasible attempt scores higher, nor the same and starts earlier, nor both from a lower crew id |
| `Choice.FirstFeasibleIsEnough` | src/lpr_cpe/dispatch/optimizer.py:281-315 | Stopping each crew at its first feasible start still yields the lexicographic optimum over every crew and start considered |
| `Choice.FirstFeasibleIsEnoughIff` | src/lpr_cpe/dispatch/optimizer.py:290-295 | Stopping at the first feasible start is optimal over the listed starts, whatever the crews, iff windows are absent or enforced, the appointment weight is zero, or no stated window holds the job at a start the cutoff and the latest finish allow |
| `Choice.BestIsTheNearestCrew` | src/lpr_cpe/dispatch/optimizer.py:414-423 | With windows absent or enforced the choice is the least travel over every acceptable crew and start considered, then the earliest start, then the lowest id; without the first where travel has no weight |
| `Choice.Nearest` | src/lpr_cpe/dispatch/optimizer.py:443-452 | The nearest miss is a true minimum of violation count, shortfall, crew, start |
| `Choice.NearestIsLeast` | src/lpr_cpe/dispatch/optimizer.py:443-452 | No attempt has fewer refusals, nor as few and a smaller shortfall, nor both at a lower crew id or earlier start |
| `Choice.AttemptsAreVerdicts` | src/lpr_cpe/dispatch/optimizer.py:342-373 | Every attempt carries its own full verdict: a score, or all violations with the first one leading |
| `Choice.RefusalsParse` | src/lpr_cpe/dispatch/optimizer.py:425-455 | An unassigned job's explanation parses to the first violation of a nearest miss |
| `Choice.AcceptanceParses` | src/lpr_cpe/dispatch/optimizer.py:457-467 | An assigned job's note lists all twelve codes and parses to none |
| `Choice.NoAttemptsIff` | src/lpr_cpe/dispatch/optimizer.py:437-442 | The no-crews message is given iff no crew exists or the latest finish excludes every crew's earliest start |
| `Queue.BuildQueue` | src/lpr_cpe/dispatch/optimizer.py:239-277 | The queue loop with its seen set equals the recursive placement |
| `Queue.TurnsAreInOrder` | src/lpr_cpe/dispatch/optimizer.py:253-277 | Of two queued jobs the earlier was pulled in the turn of a job before whose place in the order the later had not come |
| `Queue.QueueIsAPermutation` | src/lpr_cpe/dispatch/optimizer.py:253-277 | The queue enumerates the distinct jobs exactly once, cycles included |
| `Queue.ShallowIsEnough` | src/lpr_cpe/dispatch/optimizer.py:242-246 | With shallow dependencies every present predecessor precedes its dependants |
| `Queue.DeepOrderFails` | src/lpr_cpe/dispatch/optimizer.py:242-246 | With any deeper dependency some urgency order queues a predecessor too late |
| `Queue.OnePassIsEnoughIff` | src/lpr_cpe/dispatch/optimizer.py:242-277 | One pass orders predecessors first for every urgency order iff dependencies are shallow |
| `Solver.Route.Accept` | src/lpr_cpe/dispatch/optimizer.py:103-120 | Accepting an attempt appends its assignment and moves the crew's free time and position, and nothing else |
| `Solver.Attempts` | src/lpr_cpe/dispatch/optimizer.py:281-315 | The attempts gathered from the mutable routes are one offer per crew in id order, read from the current day |
| `Solver.ServeAll` | src/lpr_cpe/dispatch/optimizer.py:187-214 | The solve loop over mutable routes equals stepping the day through the queue |
| `Solver.Solve` | src/lpr_cpe/dispatch/optimizer.py:174-235 | The plan built by the imperative solve is the plan of the stepwise run |
| `Plans.MostUrgentFirst` | src/lpr_cpe/dispatch/optimizer.py:249-277 | Of two queued jobs the earlier is at least as urgent as the later, or a predecessor of one that is, ties to the lower id |
| `Plans.UnknownContextIsPermissive` | src/lpr_cpe/dispatch/optimizer.py:85-92 | A job without a context is as urgent as one customer and its priority make it, and building, wind, dependencies and stock never refuse it |
| `Plans.DrivesStartAtTheLastJob` | src/lpr_cpe/dispatch/optimizer.py:103-120 | Over any run every drive is priced from the crew's last job, if its place is known, and else from its base |
| `Plans.OffersAreTight` | src/lpr_cpe/dispatch/optimizer.py:281-315 | At every turn each crew offers the first instant it could be there, from where it stands, with its visits and all jobs given out counted |
| `Plans.PlanAddsUp` | src/lpr_cpe/dispatch/optimizer.py:187-235 | The objective is the sum of the accepted scores, the label one basis iff every accepted drive had it, and both lists are in order |
| `Plans.NothingIsDropped` | src/lpr_cpe/dispatch/optimizer.py:187-235 | Assigned and unassigned ids partition the requirements, each once, every one explained; status is ok iff none unassigned |
| `Plans.SchedulesAreSafe` | src/lpr_cpe/dispatch/optimizer.py:187-214 | After any run each crew's visits are spaced by travel, inside shift plus overtime, not in the past, within both job limits |
| `Plans.NoCrewIsInTwoPlaces` | src/lpr_cpe/dispatch/optimizer.py:103-120 | In every plan two visits by one crew are separated by at least the later one's travel |
| `Plans.EveryAssignmentWasPlaced` | src/lpr_cpe/dispatch/optimizer.py:191-214 | Every assignment was some job's best attempt at its turn and cleared all twelve constraints then |
| `Plans.PlacementIsTopological` | src/lpr_cpe/dispatch/constraints.py:352-366 | Placement order is a topological order of the placed jobs, at any depth |
| `Plans.CyclesAreNeverPlaced` | src/lpr_cpe/dispatch/constraints.py:352-366 | In no run are jobs that wait for one another, directly or round a cycle, ever placed |
| `Plans.ReasonsAreKept` | src/lpr_cpe/dispatch/optimizer.py:187-214 | The explanation kept for a job is the one written at its turn |
| `Plans.ExplanationsTellAssigned` | src/lpr_cpe/dispatch/constraints.py:123-134 | The plan's explanation of a job parses to the first violation of a nearest miss at its turn, and to none iff it was assigned |
| `Plans.EachTurnIsOptimal` | src/lpr_cpe/dispatch/optimizer.py:281-315 | At its turn a job goes unassigned iff no crew could take it, and otherwise nothing considered beats its assignment |
| `Plans.EachTurnGoesToTheNearest` | src/lpr_cpe/dispatch/optimizer.py:191-214 | At its turn a job, its windows absent or enforced, goes to the nearest crew that could take it, then the earliest start, then the lowest id; without the first where travel has no weight |
| `Plans.PlanForgetsInputOrder` | src/lpr_cpe/dispatch/optimizer.py:14-17 | Permuting requirements and crews gives the identical plan |
| `Chains.ChainFrom` | src/lpr_cpe/graph/builder.py:481-513 | The worklist lists exactly the reachable decisions, once each, head first, on every table |
| `Chains.CleanIffNoLoop` | src/lpr_cpe/graph/builder.py:575-600 | The depth-first condition holds iff the head reaches no cycle of questions |
| `Chains.FindLoop` | src/lpr_cpe/graph/builder.py:587-600 | The explicit-stack search terminates on every table and reports a loop iff one is reachable |
| `Chains.CheckChains` | src/lpr_cpe/graph/builder.py:575-600 | Refuses iff some head can reach a decision cycle |
| `Chains.Cascade` | src/lpr_cpe/graph/builder.py:547-572 | The composed router terminates and gives the answer of the last question the answers lead to |
| `Chains.AnswersLead` | src/lpr_cpe/graph/builder.py:563-572 | Asking one at a time follows each answer to the next question and settles on the last question's own answer |
| `Chains.LedIsUnique` | src/lpr_cpe/graph/builder.py:563-572 | From one head the answers lead one way only |
| `Chains.TerminalTargets` | src/lpr_cpe/graph/builder.py:516-544 | Refuses iff two questions of a chain leave it by one answer; otherwise the map holds exactly the leaving answers and their targets |
| `Chains.FlatteningIsExact` | src/lpr_cpe/graph/builder.py:516-572 | For the questions the answers lead through, the last one's answer is a key of the flattened map and leads to its own target |
| `Chains.EveryArmIsTaken` | src/lpr_cpe/graph/builder.py:516-572 | No key is dead: every leaving answer is the composed answer of some declared routers |
| `Topology.CheckTables` | src/lpr_cpe/graph/builder.py:603-703 | The static checker passes exactly the accepted tables |
| `Topology.CheckOrphans` | src/lpr_cpe/graph/builder.py:660-672 | Refuses iff some wired decision is reachable from no head |
| `Topology.CheckPendingStages` | src/lpr_cpe/graph/builder.py:706-738 | Passes iff the pending entries are exactly the unexplained exits to the end |
| `Topology.PlainEdges` | src/lpr_cpe/graph/builder.py:431-478 | Plain edges leave exactly the steps with a follower and no decision, once each |
| `Topology.DecisionEdges` | src/lpr_cpe/graph/builder.py:826-845 | Each decision edge carries its chain's path map with the sentinel sent to the end |
| `Topology.BuildParentGraph` | src/lpr_cpe/graph/builder.py:795-847 | Built iff accepted; every node then has exactly one way out, of exactly one kind |
| `Topology.RunsStopOnlyOnPurpose` | src/lpr_cpe/graph/builder.py:741-787 | Every guarded answer has a destination; the end is reached only by escalation, a declared ending, a declared terminal or an admitted gap |
| `Topology.CascadesStopOnPurposeIff` | src/lpr_cpe/graph/guards.py:266-285 | A decision's exit keeps that promise for all declared answers iff no leaving answer for a node is spelled like the sentinel |
| `Topology.SentinelCollisionIsAccepted` | src/lpr_cpe/graph/builder.py:603-703 | The checker accepts tables in which such an answer exists |
| `Topology.EveryAnswerIsMapped` | src/lpr_cpe/graph/builder.py:820-847 | On every accepted graph, sentinel collisions included, each guarded answer has a destination, and the end if the guard fired |
| `Topology.DecisionsLeadAsAnswered` | src/lpr_cpe/graph/builder.py:826-845 | A decision's exit leads where its chained answers do, one spelled like the sentinel apart |
| `Topology.StraightEdgesLead` | src/lpr_cpe/graph/builder.py:431-478 | A straight exit leads to the end if the guard fired, and otherwise to the next step, the stage's successor, or the end where there is neither |
| `Lifecycle.TerminalIsAbsorbing` | src/lpr_cpe/domain/lifecycle.py:228-256 | Over any run, seams included, closed and cancelled are never left |
| `Lifecycle.IntakeIsNeverReentered` | src/lpr_cpe/domain/lifecycle.py:32-140 | New and triaging are never re-entered once left |
| `Lifecycle.WaitsHaveOneDoor` | src/lpr_cpe/domain/lifecycle.py:32-140 | Waiting on the plant is entered only from a raised MR, on the customer only from self-help |
| `Lifecycle.DoorsAreExact` | src/lpr_cpe/domain/lifecycle.py:32-140 | Read backwards, the table lets each status be entered from exactly the listed ones |
| `Lifecycle.SeamsAreWalks` | src/lpr_cpe/domain/lifecycle.py:143-210 | Every seam is a hop-by-hop walk the node table allows and not itself a hop |
| `Lifecycle.SeamsAddNoReach` | src/lpr_cpe/domain/lifecycle.py:228-242 | Whatever a run with seams and repeats shows, single hops could have walked |
| `Lifecycle.EveryOpenStatusCanClose` | src/lpr_cpe/domain/lifecycle.py:32-140 | Every non-terminal status has a walk to closed |
| `Lifecycle.EscalationIsLegalIff` | src/lpr_cpe/domain/lifecycle.py:228-242 | Escalation is legal iff the incident is not finished |
| `Reducers.AppendUniqueLoop` | src/lpr_cpe/graph/state.py:135-152 | The loop with its seen set is the fold that keeps the first record per key |
| `Reducers.AppendUniqueMeans` | src/lpr_cpe/graph/state.py:116-152 | A record is kept out iff one of its type with the same identity is there: the value of the first key attribute set, in the listed order, or the repr |
| `Reducers.AppendRevisionLoop` | src/lpr_cpe/graph/state.py:155-194 | The loop is the fold that keeps the first of equal records |
| `Reducers.MergeRetriesLoop` | src/lpr_cpe/graph/state.py:241-246 | The loop is the pointwise maximum over both key sets |
| `Reducers.UnnamedStays` | src/lpr_cpe/graph/state.py:135-246 | A merge leaves every channel and key the update does not name as it was |
| `Reducers.NamedIsWritten` | src/lpr_cpe/graph/state.py:197-246 | What the update names it gets: its value, or the larger where the larger wins; no key appears that neither named |
| `Reducers.RecordsAreKept` | src/lpr_cpe/graph/state.py:135-194 | A written record is in its channel, or one with its key was; a revision never leaves |
| `Reducers.ReplayIsHarmless` | src/lpr_cpe/graph/state.py:135-246 | Merging an update again is legal whenever the first merge was, and changes no channel |
| `Reducers.AnyNumberOfReplays` | src/lpr_cpe/graph/state.py:135-246 | Merging an update any number of times equals merging it once |
| `Reducers.EchoIsAbsorbed` | src/lpr_cpe/graph/state.py:135-246 | Merging a child's whole state back is legal iff the collapsed status pair is, and then yields the child's state exactly |
| `Reducers.EntryCopies` | src/lpr_cpe/graph/state.py:135-246 | Entering a subgraph copies every channel unchanged |
| `Reducers.NestingIsInlining` | src/lpr_cpe/domain/lifecycle.py:143-157 | A subgraph run as one node equals its nodes inline, and refuses only at an unlisted seam |
| `Revisions.ChannelIsTheWork` | src/lpr_cpe/graph/state.py:155-194 | Under any interleaving of replays and echoes the channel holds exactly the distinct records written, once, in order |
| `Revisions.LatestByIdLoop` | src/lpr_cpe/graph/state.py:249-260 | The loop is the last entry per id |
| `Revisions.LatestByIdMeans` | src/lpr_cpe/graph/state.py:249-260 | The view holds exactly the ids some entry carries, each with the last entry that carries it |
| `Revisions.TravelledIff` | src/lpr_cpe/domain/field_ops.py:195-204 | A work order counts as a truck roll iff its status is one of the five in which a crew set out |
| `Revisions.OneWriteStaysCurrent` | src/lpr_cpe/graph/state.py:155-194 | A write keeps the view current iff it does not revert an id to a replaced revision |
| `Revisions.ViewIsCurrentIff` | src/lpr_cpe/graph/state.py:249-260 | The view is the last write per id throughout a history iff no write reverts |
| `Revisions.ViewsFollowTheWork` | src/lpr_cpe/graph/state.py:478-492 | Under any replays and echoes the view is the last write per id of the work alone, and the truck-roll count its travelled work orders, while no write reverts |
| `Runs.VerdictMeans` | src/lpr_cpe/graph/guards.py:100-178 | The step limit is the lesser of the two; an entry passes iff it is under all five bounds, and a refusal names the widest bound spent with what was observed |
| `Runs.OwnerNamesTheLimitIff` | src/lpr_cpe/graph/guards.py:100-115 | The named owner carries the limit, except exactly when a zero override fell through and the settings bind |
| `Runs.EntryCountsOnce` | src/lpr_cpe/graph/nodes/_runtime.py:291-304 | However often its update is merged, an entry raises its node's count and the total by exactly one |
| `Runs.AcceptedWritesItsBody` | src/lpr_cpe/graph/nodes/_runtime.py:291-304 | An accepted entry leaves every channel but the visits as merging its body alone would |
| `Runs.RefusalIsAudited` | src/lpr_cpe/graph/guards.py:191-263 | A refused entry leaves its escalation on the audit trail, or one under its key was there |
| `Runs.RunStatusesAreLegal` | src/lpr_cpe/graph/state.py:215-223 | The statuses any run shows form a legal status run |
| `Runs.RefusalRaisesTheFlag` | src/lpr_cpe/graph/guards.py:191-263 | A refused entry leaves the escalation flag and status set |
| `Runs.RefusalMergesIff` | src/lpr_cpe/graph/guards.py:191-263 | The escalation update merges iff the incident is unfinished |
| `Runs.CountsMatchEntries` | src/lpr_cpe/graph/state.py:512-526 | Along any run the counts are the starting counts plus the entries made |
| `Runs.AcceptedEntriesAreBounded` | src/lpr_cpe/graph/guards.py:133-178 | An accepted entry is within both step limits and its node's re-entry limit |
| `Stages.RefusedEntryIsLast` | src/lpr_cpe/graph/guards.py:266-280 | The first refused entry, in a step or inside any stage, is the last entry of the whole run |
| `Stages.GraphRunsAreBounded` | src/lpr_cpe/graph/guards.py:133-178 | Over all steps and stages together a run makes at most the remaining step limit of accepted entries and one refused |
| `Stages.VisitLeavesItsNodes` | src/lpr_cpe/graph/builder.py:820-822 | A finished stage leaves the parent exactly the state its nodes left, however often its write is merged |
| `Stages.WorkflowIsARun` | src/lpr_cpe/graph/builder.py:820-822 | A run through steps and stages is one run of wrapped entries, every one counted |
| `Stages.RefusalEndsTheStage` | src/lpr_cpe/graph/guards.py:266-280 | A refusal inside a stage ends it, its write passes every seam unchanged, and the parent's edge leads to the end |
| `Runs.EveryEntryLeadsOn` | src/lpr_cpe/graph/builder.py:795-847 | After any entry the edges give a next node or the end, and the end only on purpose where no answer of the node collides with the sentinel |
| `Gates.IdsAreInjective` | src/lpr_cpe/graph/interrupts.py:100-119 | Approval ids agree only for the same incident, kind, attempt and subject, unless one incident spells the other's fields |
| `Gates.IncidentsShareAnIdIff` | src/lpr_cpe/graph/interrupts.py:118-119 | Two incidents can share an approval id iff one is the other continued by a kind, a number and then nothing or another field |
| `Gates.PlainIncidentsSpellNothing` | src/lpr_cpe/graph/interrupts.py:118-119 | No incident spells itself and none without the separator spells any, so within one incident ids are always injective |
| `Gates.SeparatorInIncidentCollides` | src/lpr_cpe/graph/interrupts.py:100-119 | A concrete pair of incidents that share an id |
| `Gates.SubjectsKeepActionsApart` | src/lpr_cpe/graph/interrupts.py:251-256 | Two actions, or one action on two targets, are two subjects |
| `Gates.LatestDecisionOf` | src/lpr_cpe/graph/routing.py:251-254 | The decision read is a latest one of its kind, none iff there is none |
| `Gates.AnswerClosesIff` | src/lpr_cpe/graph/routing.py:257-279 | An answer closes its outstanding gate iff its id is new; under an old id it is dropped and the demand stands |
| `Gates.DemandReopensIff` | src/lpr_cpe/graph/routing.py:257-279 | A closed gate reopens iff the demand is strictly later than every answer |
| `Gates.EveryAskCloses` | src/lpr_cpe/graph/routing.py:257-279 | In any disciplined history every ask closes its gate |
| `Gates.AsksNeverExceedDemands` | src/lpr_cpe/graph/routing.py:257-279 | A kind is never asked more often than the channel holds demands of it, and an open gate has a demand to spare |
| `Gates.ApprovedOnlyOnPurpose` | src/lpr_cpe/graph/interrupts.py:138-223 | A decision approves iff a named person in a permitted role said approved |
| `Gates.DecidedOnlyOnPurpose` | src/lpr_cpe/graph/interrupts.py:138-223 | Of what can be read, any status but rejection is recorded iff a named, permitted person said exactly that; everything else is a rejection with a reason left after trimming |
| `Gates.ReadingRaisesIff` | src/lpr_cpe/graph/interrupts.py:138-166 | Reading a reply raises iff it is a mapping whose role is truthy and not text, or one in which a named, permitted person rejects with a rationale of nothing but white space |
| `Gates.StatusNamedIff` | src/lpr_cpe/domain/enums.py:385-391 | A word names a status iff it is that status's own |
| `Gates.WordsAreKept` | src/lpr_cpe/graph/interrupts.py:203-223 | A permitted person's name, role and reason are recorded as given, white space trimmed, a reason supplied only for a rejection without one |
| `Breaker.CircuitBreaker.BeforeCall` | src/lpr_cpe/integrations/base.py:207-216 | A call is admitted iff the breaker is disarmed or its cooldown has passed, which disarms it |
| `Breaker.CircuitBreaker.OnFailure` | src/lpr_cpe/integrations/base.py:222-225 | A failure is counted, and at the threshold stamps the opening time |
| `Breaker.RefusedIff` | src/lpr_cpe/integrations/base.py:192-229 | Over any history a call is refused iff the operations since the last success failed at least threshold times and the last ended less than a cooldown ago |
| `Breaker.SuccessForgets` | src/lpr_cpe/integrations/base.py:218-220 | After a success the breaker behaves as one never used |
| `Breaker.BreakerStaysSane` | src/lpr_cpe/integrations/base.py:192-229 | In every history an open breaker has reached its threshold |
| `Breaker.FailuresSpreadOut` | src/lpr_cpe/integrations/base.py:192-229 | Past the tolerated failures every further failing operation takes a full cooldown |
| `Breaker.FailingStretchIsThrottled` | src/lpr_cpe/integrations/base.py:192-229 | From any reachable state a success-free stretch of length W admits at most threshold + floor(W / cooldown) operations |
| `Breaker.EveryStretchIsThrottled` | src/lpr_cpe/integrations/base.py:192-229 | The same bound for every success-free stretch of every history |
| `Breaker.WithRetry` | src/lpr_cpe/integrations/base.py:232-269 | The retry loop's result, invocations, sleep and breaker equal the recursive account of the call |
| `Breaker.TryMeans` | src/lpr_cpe/integrations/base.py:251-269 | Every invocation but the last failed retryably, and each way of ending implies its cause |
| `Breaker.TrySleeps` | src/lpr_cpe/integrations/base.py:251-269 | From any point of the loop the remaining sleep is bounded by the remaining doublings |
| `Breaker.TryIsExact` | src/lpr_cpe/integrations/base.py:251-269 | The sleep is exactly the doublings between invocations, and the breaker is left as the invocations alone would leave it |
| `Breaker.RetryIsBounded` | src/lpr_cpe/integrations/base.py:232-269 | For at least one attempt: at most `attempts` invocations, base * (2^(attempts-1) - 1) of sleep, and never exhaustion |
| `Breaker.FewerThanOneAttempt` | src/lpr_cpe/integrations/base.py:251-269 | For fewer than one: one call iff the breaker admits it, exhaustion iff that call failed retryably, and then exactly one base delay |
| `Diagnosis.DomainWeightsLoop` | src/lpr_cpe/detectors/localisation.py:41-60 | The accumulation loop is the fold over findings |
| `Diagnosis.WeightsAdd` | src/lpr_cpe/detectors/localisation.py:54-60 | Weights add over findings, whatever came before |
| `Diagnosis.OneFindingWeighs` | src/lpr_cpe/detectors/localisation.py:54-60 | One finding weighs score times confidence in its own domain and nothing elsewhere |
| `Diagnosis.PermutedFindingsWeighTheSame` | src/lpr_cpe/detectors/localisation.py:54-60 | The order of the findings is no matter |
| `Diagnosis.WeightsAreSuspicions` | src/lpr_cpe/detectors/localisation.py:41-60 | Exactly the suspected domains carry weight, non-negative for non-negative findings |
| `Diagnosis.BuildHypotheses` | src/lpr_cpe/decision_services/rca.py:68-127 | One rounded hypothesis per suspected domain in rank order, or nothing iff some record refuses |
| `Diagnosis.SetsAreRanked` | src/lpr_cpe/decision_services/rca.py:75 | The hypotheses come heaviest first, alphabetically among equals |
| `Diagnosis.HypothesesCarry` | src/lpr_cpe/decision_services/rca.py:97-127 | Each carries the same rounded prior, its own rounded posterior, and the reason it was ruled out for |
| `Diagnosis.OneSourceCountsOnce` | src/lpr_cpe/decision_services/rca.py:83-86 | However many findings cite one source alone, it counts once |
| `Diagnosis.SourcesCount` | src/lpr_cpe/decision_services/rca.py:83-86 | A further finding counts by the references not yet cited, and only those |
| `Diagnosis.HypothesesBuildIff` | src/lpr_cpe/domain/diagnosis.py:308-334 | The records build iff no posterior is more than half a rounding step below zero and every ruled-out domain has a reason that is more than white space |
| `Diagnosis.PosteriorsAreNonNegativeIff` | src/lpr_cpe/decision_services/rca.py:86-87 | The unrounded posteriors are all non-negative iff no two weights have opposite signs, for which non-negative scores suffice |
| `Diagnosis.PosteriorsSumToAtMostOne` | src/lpr_cpe/decision_services/rca.py:68-127 | For non-negative findings the unrounded posteriors sum to at most one, and the rounded ones to at most half a step more for each |
| `Diagnosis.SourcesLimitPosterior` | src/lpr_cpe/decision_services/rca.py:83-87 | With enough distinct sources the unrounded posterior is the capped share; with fewer strictly less; never above the fraction of required sources found |
| `Diagnosis.PosteriorBelowCeiling` | src/lpr_cpe/decision_services/rca.py:86-88 | Short of the sources and of the ceiling, the posterior is to the share as the sources found to those asked for |
| `Diagnosis.SetsHaveOnePerDomain` | src/lpr_cpe/decision_services/rca.py:75-127 | Each suspected domain has one rounded hypothesis, between 0 and the ceiling, rejected iff ruled out |
| `Diagnosis.DeriveIsSound` | src/lpr_cpe/domain/diagnosis.py:405-492 | Derivation never violates its validator, keeps the domain iff a live hypothesis supports it, and 0 <= confidence <= the rounded leader <= 0.95 |
| `Diagnosis.ReasonMeans` | src/lpr_cpe/domain/diagnosis.py:473-478 | Evidence conflicts iff a live hypothesis elsewhere is within the margin of the best here; otherwise confident iff the confidence before rounding meets the bar |
| `Diagnosis.ConfidenceIsMonotone` | src/lpr_cpe/domain/diagnosis.py:466-471 | The unrounded confidence strictly rises with the leader and strictly falls with the rival |
| `Diagnosis.ConfidenceMeans` | src/lpr_cpe/domain/diagnosis.py:466-471 | A lone hypothesis keeps its posterior, a matched one half of it, and in general the leader keeps its share of the two of itself |
| `Diagnosis.ClassifierChoosesASuspect` | src/lpr_cpe/detectors/localisation.py:143-160 | Power wins outright; otherwise a heaviest suspected domain, the outermost of those and then the alphabetically first |
| `Diagnosis.ConclusionFollowsClassifier` | src/lpr_cpe/decision_services/rca.py:171-183 | Concluding with the classifier's domain keeps it as primary iff it was not ruled out |
| `Diagnosis.Conclude` | src/lpr_cpe/decision_services/rca.py:146-183 | A cycle fails iff some rounded record refuses; otherwise the result is valid, its confidence is at most its leader's posterior, and it answers for its domain, or for unknown when ruled out or unsuspected |
| `Restoration.UnknownFixesWaitLongest` | src/lpr_cpe/decision_services/restoration.py:43-55 | An unrecorded fix and the three plant fixes wait the plant window, which is never the shorter, and every other the short one |
| `Restoration.ReductionMeans` | src/lpr_cpe/decision_services/restoration.py:58-78 | The anomaly has cleared enough iff every remaining score is within the permitted part of the old peak; no measure iff nothing scored |
| `Restoration.CompareKpis` | src/lpr_cpe/decision_services/restoration.py:81-111 | The three lists are exactly the shared metrics of each trend, in name order |
| `Restoration.RegressedMeans` | src/lpr_cpe/decision_services/restoration.py:81-111 | The regressed list is empty iff no directed shared metric moved the wrong way |
| `Restoration.TrendsMean` | src/lpr_cpe/decision_services/restoration.py:97-111 | A shared metric is undirected iff no direction was given, and otherwise improved or regressed iff it moved with or against it |
| `Restoration.ValidateRestoration` | src/lpr_cpe/decision_services/restoration.py:144-236 | The record assembled step by step is the declared one, or nothing iff the record refuses it |
| `Restoration.PassesIff` | src/lpr_cpe/decision_services/restoration.py:144-236 | An attempt passes iff window, samples, reduction, no regression and any required confirmation all hold |
| `Restoration.RefusedIff` | src/lpr_cpe/domain/closure.py:47-64 | Construction is refused only for sample counts out of range or a pass on no window; never by a policy with positive windows |
| `Restoration.StabilitySplit` | src/lpr_cpe/graph/routing.py:801-824 | Confirmed iff passed; observed iff the window is open and nothing regressed; otherwise diagnosed again |
| `Restoration.RoutesNeedAPass` | src/lpr_cpe/graph/routing.py:801-839 | Any record is confirmed iff it passed, and reconciled iff it passed and was not denied |
| `Restoration.NoRecordClosesNothing` | src/lpr_cpe/graph/routing.py:814-839 | With no record the incident is observed further and never reconciled |
| `Restoration.RouteAndOutcomeDiffer` | src/lpr_cpe/graph/routing.py:815-824 | Exactly which pending records go back to diagnosis and which failed ones are observed further |
| `Restoration.ObservationEnds` | src/lpr_cpe/graph/routing.py:801-824 | Looks a gap apart are observed further fewer times than the window holds gaps, and never again once the window has closed |
| `Restoration.ValidatorAcceptsAnEarlyPass` | src/lpr_cpe/domain/closure.py:47-68 | The validator alone admits a pass before the window's end |
| `Restoration.ProofBeforeClosureIff` | src/lpr_cpe/domain/closure.py:139-164 | A closure code guarantees proof or a signature that is more than white space iff it is normal or exceptional |
| `Restoration.NormalClosureHasProof` | src/lpr_cpe/domain/closure.py:139-153 | A normal closure of an attempt, with a resolution that is more than white space, is constructible iff all criteria held, iff the stability decision confirmed it; reconciliation follows unless the customer denied |

## Left out

- Diagnosis.Conclude: takes the cycle count as at least one, which the result's field demands.
- Choice.FirstFeasibleIsEnough: where an island cutoff can hide starts, the optimum is over the listed starts only (`Choice.Considered`), because `Search.CutoffHidesMidnight` shows the others are not searched.
- Gates.AsksNeverExceedDemands: takes as given that each ask carries a fresh kind, attempt and subject and that a gate is asked only while outstanding; the nodes that call it are not part of this model.
- Breaker.EveryStretchIsThrottled: sequential histories; interleaved asynchronous calls that pass the breaker before the first failure is recorded are not modelled.
- HTTP API, command line, runner, audit bundle, logging, tracing, checkpointer and serialisation: plumbing around other libraries.
- Model providers and narrative text, summaries and explanation prose beyond the leading code: no decision depends on them.
- Node bodies, subgraph internals, the policy engine and its configuration, role tables, redaction and outbox: arbitrary parameters here.
- The graph library's runtime beyond running a node, merging its update, replaying it, and taking its edge.
- Haversine travel times: travel is an arbitrary non-negative function.
- The individual detectors, blast-radius sizing, SLA resolution, KPI calculation and the resolution catalogue: single-branch arithmetic and lookup tables.
- Test plans, discriminating tests, evidence references of hypotheses beyond their count, and the classifier's own score and confidence.
- The write gate's recorded lists, solve durations and other wall-clock measurements.
