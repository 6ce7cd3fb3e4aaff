/** What every plan keeps: nobody dropped, no crew overbooked, predecessors first, every reason
    readable, and the same plan whatever order the inputs came in. */
module Plans {
  import opened Orders
  import opened Constraints
  import opened Objective
  import opened Search
  import opened Choice
  import opened Queue
  import opened Solver

  // -- nothing dropped ---------------------------------------------------------------------------

  function Project<T, U>(xs: seq<T>, f: T -> U): seq<U> { seq(|xs|, i requires 0 <= i < |xs| => f(xs[i])) }

  lemma ProjectWithout<T, U>(ys: seq<T>, k: nat, f: T -> U)
    requires k < |ys|
    ensures multiset(Project(ys, f)) == multiset(Project(ys[..k] + ys[k + 1..], f)) + multiset{f(ys[k])}
  {
    var us := Project(ys, f);
    assert us == us[..k] + [f(ys[k])] + us[k + 1..];
    assert Project(ys[..k] + ys[k + 1..], f) == us[..k] + us[k + 1..];
  }

  lemma {:induction false} ProjectionFollows<T, U>(xs: seq<T>, ys: seq<T>, f: T -> U)
    requires multiset(xs) == multiset(ys)
    ensures multiset(Project(xs, f)) == multiset(Project(ys, f))
  {
    hide Project;
    SameMembers(xs, ys);
    if xs == [] {
      assert ys == [];
    } else {
      var k := RestAlike(xs, ys);
      ProjectWithout(xs, 0, f);
      ProjectWithout(ys, k, f);
      assert xs[..0] + xs[1..] == xs[1..];
      ProjectionFollows(xs[1..], ys[..k] + ys[k + 1..], f);
    }
  }

  function JobOf(a: Assignment): Id { a.requirementId }
  function IdOf(r: Requirement): Id { r.id }

  lemma AcceptAdds(v: RouteView, a: Attempt)
    ensures multiset(Project(v.Accept(a).assignments, JobOf)) == multiset(Project(v.assignments, JobOf)) + multiset{a.candidate.requirement.id}
  {
    var asg := AssignmentFor(a, |v.assignments|);
    ProjectConcat(v.assignments, [asg]);
    assert JobOf(asg) == a.candidate.requirement.id;
    assert Project([asg], JobOf) == [JobOf(asg)];
  }

  lemma FlattenLast(routes: Routes, ids: seq<Id>)
    requires (forall i :: 0 <= i < |ids| ==> ids[i] in routes) && ids != []
    ensures Project(Flatten(routes, ids), JobOf)
      == Project(Flatten(routes, ids[..|ids| - 1]), JobOf) + Project(routes[ids[|ids| - 1]].assignments, JobOf)
  {
    hide Project;
    ProjectConcat(Flatten(routes, ids[..|ids| - 1]), routes[ids[|ids| - 1]].assignments);
  }

  lemma {:induction false} FlattenAccept(routes: Routes, ids: seq<Id>, c: Id, a: Attempt)
    requires (forall i :: 0 <= i < |ids| ==> ids[i] in routes) && c in routes && Distinct(ids)
    ensures var next: Routes := routes[c := routes[c].Accept(a)];
      multiset(Project(Flatten(next, ids), JobOf)) ==
        multiset(Project(Flatten(routes, ids), JobOf)) + if c in ids then multiset{a.candidate.requirement.id} else multiset{}
  {
    hide Project;
    var next: Routes := routes[c := routes[c].Accept(a)];
    if ids != [] {
      hide Flatten, RouteView.Accept;
      var n := |ids| - 1;
      assert ids == ids[..n] + [ids[n]];
      FlattenAccept(routes, ids[..n], c, a);
      FlattenLast(next, ids);
      FlattenLast(routes, ids);
      AcceptAdds(routes[c], a);
    }
  }

  lemma ProjectConcat(xs: seq<Assignment>, ys: seq<Assignment>)
    ensures Project(xs + ys, JobOf) == Project(xs, JobOf) + Project(ys, JobOf)
  {
  }

  function Carried(day: Day): seq<Assignment> { Flatten(day.routes, SortedSet(day.routes.Keys)) }

  lemma StepCarries(env: Env, day: Day, r: Requirement)
    requires multiset(Project(Carried(day), JobOf)) == multiset(day.ledger.scheduled)
    ensures multiset(Project(Carried(Step(env, day, r)), JobOf)) == multiset(Step(env, day, r).ledger.scheduled)
  {
    hide AttemptsOf, Best, WhyNot, SatisfiedNote, Step, WindowStarts, Acceptable, ScoreCandidate, Flatten;
    StepCases(env, day, r);
    if Best(AttemptsOf(env, r, day)).Some? {
      var a := Best(AttemptsOf(env, r, day)).value;
      BestHasARoute(env, r, day);
      var ids := SortedSet(day.routes.Keys);
      assert Step(env, day, r).routes.Keys == day.routes.Keys;
      assert a.crewId in ids;
      FlattenAccept(day.routes, ids, a.crewId, a);
    }
  }

  lemma {:induction false} FlattenEmpty(routes: Routes, ids: seq<Id>)
    requires forall i :: 0 <= i < |ids| ==> ids[i] in routes
    requires forall id :: id in routes ==> routes[id].assignments == []
    ensures Flatten(routes, ids) == []
  {
    if ids != [] { FlattenEmpty(routes, ids[..|ids| - 1]); }
  }

  lemma {:induction false} RunCarries(env: Env, crews: seq<CrewSlot>, jobs: seq<Requirement>)
    ensures multiset(Project(Carried(Run(env, StartOf(crews), jobs)), JobOf)) == multiset(Run(env, StartOf(crews), jobs).ledger.scheduled)
  {
    hide Step, Flatten;
    if jobs == [] {
      FlattenEmpty(RoutesOf(crews), SortedSet(RoutesOf(crews).Keys));
    } else {
      var n := |jobs| - 1;
      RunCarries(env, crews, jobs[..n]);
      StepCarries(env, Run(env, StartOf(crews), jobs[..n]), jobs[n]);
    }
  }

  lemma {:induction false} RunAccounts(env: Env, crews: seq<CrewSlot>, jobs: seq<Requirement>)
    ensures var l := Run(env, StartOf(crews), jobs).ledger;
      && multiset(l.scheduled) + multiset(l.unassigned) == multiset(Project(jobs, IdOf))
      && forall id :: id in l.explanations <==> id in Project(jobs, IdOf)
  {
    hide AttemptsOf, Best, WhyNot, SatisfiedNote, Step;
    if jobs != [] {
      var n := |jobs| - 1;
      RunAccounts(env, crews, jobs[..n]);
      StepCases(env, Run(env, StartOf(crews), jobs[..n]), jobs[n]);
      ProjectLast(jobs);
    }
  }

  lemma ProjectLast(jobs: seq<Requirement>)
    requires jobs != []
    ensures Project(jobs, IdOf) == Project(jobs[..|jobs| - 1], IdOf) + [jobs[|jobs| - 1].id]
    ensures multiset(Project(jobs, IdOf)) == multiset(Project(jobs[..|jobs| - 1], IdOf)) + multiset{jobs[|jobs| - 1].id}
  {
    assert Project(jobs, IdOf) == Project(jobs[..|jobs| - 1], IdOf) + [jobs[|jobs| - 1].id];
  }

  /** Assigned and unassigned ids partition the requirements, each once, and every one is explained. */
  lemma {:induction false} NothingIsDropped(problem: Problem)
    requires Distinct(Ids(problem.requirements))
    ensures var plan := PlanOf(problem);
      && multiset(Project(plan.assignments, JobOf)) + multiset(plan.unassigned) == multiset(Ids(problem.requirements))
      && (forall id :: id in plan.explanations <==> id in Ids(problem.requirements))
      && (plan.status == "ok" <==> plan.unassigned == [])
  {
    hide Run, AttemptsOf, Flatten, Sort, QueueOf, Place, ByUrgency, Distinct;
    var env, jobs := problem.env, Jobs(problem);
    var crews := Sort(problem.crews, CrewLeq);
    var ordered := Sort(problem.requirements, ByUrgency(env));
    var day := Run(env, StartOf(crews), jobs);
    RunAccounts(env, crews, jobs);
    RunCarries(env, crews, jobs);
    ProjectionFollows(Carried(day), PlanOf(problem).assignments, JobOf);
    JobsArePermuted(problem);
    SameMembers(Project(jobs, IdOf), Ids(problem.requirements));
    SameMembers(day.ledger.unassigned, PlanOf(problem).unassigned);
  }

  lemma JobsArePermuted(problem: Problem)
    requires Distinct(Ids(problem.requirements))
    ensures multiset(Project(Jobs(problem), IdOf)) == multiset(Ids(problem.requirements))
    ensures Distinct(Ids(Jobs(problem)))
  {
    hide Sort, QueueOf, Place, ByUrgency, Distinct;
    var env := problem.env;
    var ordered := Sort(problem.requirements, ByUrgency(env));
    ProjectionFollows(ordered, problem.requirements, IdOf);
    IdsAreProjected(ordered);
    IdsAreProjected(problem.requirements);
    DistinctByCount(Ids(problem.requirements));
    DistinctByCount(Ids(ordered));
    QueueIsAPermutation(Ids(ordered), DepsIn(env, Ids(ordered)));
    DistinctByCount(Ids(Jobs(problem)));
    IdsAreProjected(Jobs(problem));
  }

  // -- most urgent first -------------------------------------------------------------------------

  function Urgency(env: Env, r: Requirement): real { UrgencyRank(r, ContextFor(env, r.id), env.policy) }

  lemma SameIdSameJob(rs: seq<Requirement>, a: Requirement, b: Requirement)
    requires Distinct(Ids(rs)) && a in rs && b in rs && a.id == b.id
    ensures a == b
  {
    var i :| 0 <= i < |rs| && rs[i] == a;
    var j :| 0 <= j < |rs| && rs[j] == b;
    assert Ids(rs)[i] == Ids(rs)[j];
  }

  lemma OrderedByUrgency(env: Env, rs: seq<Requirement>, ordered: seq<Requirement>)
    requires ordered == Sort(rs, ByUrgency(env))
    ensures forall m, q :: 0 <= m < q < |ordered| ==>
      Urgency(env, ordered[m]) > Urgency(env, ordered[q])
      || (Urgency(env, ordered[m]) == Urgency(env, ordered[q]) && ordered[m].id <= ordered[q].id)
  {
    hide Sort, UrgencyRank, Preorder;
    UrgencyIsAnOrder(env);
    SortSorts(rs, ByUrgency(env));
    forall m, q | 0 <= m < q < |ordered|
      ensures Urgency(env, ordered[m]) > Urgency(env, ordered[q])
        || (Urgency(env, ordered[m]) == Urgency(env, ordered[q]) && ordered[m].id <= ordered[q].id)
    {
      assert ByUrgency(env)(ordered[m], ordered[q]);
    }
  }

  /** The most urgent job is considered first: of two jobs in the queue the earlier is itself at least as
      urgent as the later, or a predecessor of a job that is, ties going to the lower id. */
  lemma MostUrgentFirst(problem: Problem, i: nat, j: nat) returns (k: Requirement)
    requires Distinct(Ids(problem.requirements)) && i < j < |Jobs(problem)|
    ensures k in problem.requirements
    ensures k == Jobs(problem)[i] || Jobs(problem)[i].id in ContextFor(problem.env, k.id).dependsOn
    ensures var later := Jobs(problem)[j];
      || Urgency(problem.env, k) > Urgency(problem.env, later)
      || (Urgency(problem.env, k) == Urgency(problem.env, later) && k.id <= later.id)
  {
    hide Sort, QueueOf, Place, ByUrgency, Distinct, Urgency, ContextFor;
    var env := problem.env;
    var ordered := Sort(problem.requirements, ByUrgency(env));
    var ids, jobs := Ids(ordered), Jobs(problem);
    OrderedByUrgency(env, problem.requirements, ordered);
    SameMembers(ordered, problem.requirements);
    OrderedIdsDistinct(problem, ordered);
    var m := TurnsAreInOrder(ids, DepsIn(env, ids), Members(ids), i, j);
    k := ordered[m];
    assert Ids(jobs)[i] == jobs[i].id && Ids(jobs)[j] == jobs[j].id;
    assert jobs[i] in jobs && jobs[j] in jobs;
    if ids[m] == jobs[i].id { SameIdSameJob(ordered, k, jobs[i]); }
    var q :| 0 <= q < |ordered| && ordered[q] == jobs[j];
    assert ids[q] == jobs[j].id;
    FrontHolds(ids, m);
  }

  lemma FrontHolds(ids: seq<Id>, m: nat)
    requires m <= |ids|
    ensures forall q :: 0 <= q < m ==> ids[q] in ids[..m]
  {
    forall q | 0 <= q < m ensures ids[q] in ids[..m] { assert ids[..m][q] == ids[q]; }
  }

  lemma OrderedIdsDistinct(problem: Problem, ordered: seq<Requirement>)
    requires Distinct(Ids(problem.requirements)) && multiset(ordered) == multiset(problem.requirements)
    ensures Distinct(Ids(ordered))
  {
    hide Distinct;
    ProjectionFollows(ordered, problem.requirements, IdOf);
    IdsAreProjected(ordered);
    IdsAreProjected(problem.requirements);
    DistinctByCount(Ids(problem.requirements));
    DistinctByCount(Ids(ordered));
  }

  /** A job nobody supplied a context for is planned all the same: it is no more urgent than one customer and
      its own priority make it, and neither building, wind, dependency nor stock refuses it. */
  lemma UnknownContextIsPermissive(env: Env, c: Candidate)
    requires c.requirement.id !in env.contexts && c.context == ContextFor(env, c.requirement.id)
    ensures Urgency(env, c.requirement) == BlastFraction(1, env.policy) + c.requirement.priority
    ensures Clear(BuildingAccess, c, env.policy) && Clear(Safety, c, env.policy) && Clear(WorkOrderDependency, c, env.policy)
    ensures Clear(Parts, c, env.policy) <==> Members(c.requirement.parts) <= Members(c.crew.parts)
  {
    hide BlastFraction;
  }

  // -- no crew overbooked ------------------------------------------------------------------------

  /** The k-th visit starts only after the crew has finished the one before and driven over, inside
      the shift and its overtime, and never in the past. */
  ghost predicate Spaced(env: Env, v: RouteView, k: nat)
    requires k < |v.assignments|
  {
    var a := v.assignments[k];
    && a.crewId == v.crew.id && a.crewType == v.crew.crewType && a.index == k
    && a.start >= a.travelTicks + Max(v.crew.availableFrom, env.now)
    && (k > 0 ==> a.start >= v.assignments[k - 1].end + a.travelTicks)
    && a.start < a.end <= v.crew.availableUntil + env.policy.maxOvertimeMinutes * MINUTE
  }

  ghost predicate RouteSafe(env: Env, v: RouteView) {
    && (v.assignments != [] ==> |v.assignments| <= v.crew.maxJobs && |v.assignments| <= env.policy.maxJobsPerShift)
    && v.freeFrom == (if v.assignments == [] then None else Some(v.assignments[|v.assignments| - 1].end))
    && forall k :: 0 <= k < |v.assignments| ==> Spaced(env, v, k)
  }

  lemma AcceptedFits(env: Env, day: Day, r: Requirement)
    requires Best(AttemptsOf(env, r, day)).Some?
    ensures var a := Best(AttemptsOf(env, r, day)).value;
      && a.crewId in day.routes
      && var v := day.routes[a.crewId];
         && a.crewId == v.crew.id
         && a.candidate == OfferOf(env, r, v, Members(day.ledger.scheduled)).slot.(start := a.start, end := a.start + r.duration)
         && a.start >= v.ReadyAt(env.now) + a.candidate.travel.ticks
         && (r.earliestStart.Some? ==> a.start >= r.earliestStart.value)
         && !TooLate(a.candidate) && Feasible(a.candidate, env.policy)
  {
    hide AttemptsOf, Best, Feasible, WindowStarts, ScoreCandidate;
    BestHasARoute(env, r, day);
  }

  lemma AcceptKeepsSafe(env: Env, v: RouteView, a: Attempt)
    requires RouteSafe(env, v) && a.crewId == v.crew.id && a.candidate.crew == v.crew
    requires a.candidate.jobsAssigned == |v.assignments| && a.candidate.start < a.candidate.end
    requires a.candidate.start >= v.ReadyAt(env.now) + a.candidate.travel.ticks
    requires StaticOk(a.candidate, env.policy) && TimesOk(a.candidate, env.policy)
    ensures RouteSafe(env, v.Accept(a))
  {
    var next := v.Accept(a);
    forall k | 0 <= k < |next.assignments| ensures Spaced(env, next, k) {
      if k < |v.assignments| { assert Spaced(env, v, k); }
    }
  }

  lemma StepKeepsSafe(env: Env, day: Day, r: Requirement)
    requires r.duration > 0 && forall id :: id in day.routes ==> RouteSafe(env, day.routes[id])
    ensures forall id :: id in Step(env, day, r).routes ==> RouteSafe(env, Step(env, day, r).routes[id])
  {
    hide AttemptsOf, Best, WhyNot, SatisfiedNote, Step, WindowStarts, Feasible, RouteSafe, StaticOk, TimesOk, TooLate;
    StepCases(env, day, r);
    if Best(AttemptsOf(env, r, day)).Some? {
      var a := Best(AttemptsOf(env, r, day)).value;
      AcceptedFits(env, day, r);
      FeasibleMeans(a.candidate, env.policy);
      AcceptKeepsSafe(env, day.routes[a.crewId], a);
    }
  }

  /** After any run, every crew's day is safe. */
  lemma {:induction false} SchedulesAreSafe(env: Env, crews: seq<CrewSlot>, jobs: seq<Requirement>)
    requires forall r :: r in jobs ==> r.duration > 0
    ensures forall id :: id in Run(env, StartOf(crews), jobs).routes ==> RouteSafe(env, Run(env, StartOf(crews), jobs).routes[id])
  {
    hide Step;
    if jobs != [] {
      var n := |jobs| - 1;
      assert jobs == jobs[..n] + [jobs[n]];
      SchedulesAreSafe(env, crews, jobs[..n]);
      StepKeepsSafe(env, Run(env, StartOf(crews), jobs[..n]), jobs[n]);
    }
  }

  lemma {:induction false} VisitsAreInOrder(env: Env, v: RouteView, i: nat, j: nat)
    requires RouteSafe(env, v) && i < j < |v.assignments|
    ensures v.assignments[i].end + v.assignments[j].travelTicks <= v.assignments[j].start
  {
    assert Spaced(env, v, j) && Spaced(env, v, j - 1);
    if i < j - 1 { VisitsAreInOrder(env, v, i, j - 1); }
  }

  lemma {:induction false} FlattenMembers(routes: Routes, ids: seq<Id>, a: Assignment)
    requires (forall i :: 0 <= i < |ids| ==> ids[i] in routes) && a in Flatten(routes, ids)
    ensures exists id, k :: id in routes && 0 <= k < |routes[id].assignments| && routes[id].assignments[k] == a
  {
    if ids != [] {
      var n := |ids| - 1;
      if a in Flatten(routes, ids[..n]) {
        FlattenMembers(routes, ids[..n], a);
      } else {
        assert a in routes[ids[n]].assignments;
      }
    }
  }

  /** Where an assignment of the plan sits in its crew's day. */
  lemma PlannedVisit(problem: Problem, a: Assignment) returns (v: RouteView, k: nat)
    requires a in PlanOf(problem).assignments && forall r :: r in problem.requirements ==> r.duration > 0
    ensures RouteSafe(problem.env, v) && k < |v.assignments| && v.assignments[k] == a
    ensures v.crew.id == a.crewId && k == a.index
    ensures v.crew.id in Run(problem.env, Start(problem), Jobs(problem)).routes
    ensures v == Run(problem.env, Start(problem), Jobs(problem)).routes[v.crew.id]
  {
    hide Run, Sort, QueueOf, Flatten, RouteSafe, ByUrgency;
    var ordered := Sort(problem.requirements, ByUrgency(problem.env));
    var day := Run(problem.env, Start(problem), Jobs(problem));
    SameMembers(Carried(day), PlanOf(problem).assignments);
    SameMembers(ordered, problem.requirements);
    SchedulesAreSafe(problem.env, Sort(problem.crews, CrewLeq), Jobs(problem));
    FlattenMembers(day.routes, SortedSet(day.routes.Keys), a);
    var id, i :| id in day.routes && 0 <= i < |day.routes[id].assignments| && day.routes[id].assignments[i] == a;
    v, k := day.routes[id], i;
    SafeIndex(problem.env, v, k);
  }

  lemma SafeIndex(env: Env, v: RouteView, k: nat)
    requires RouteSafe(env, v) && k < |v.assignments|
    ensures v.assignments[k].crewId == v.crew.id && v.assignments[k].index == k
  {
    assert Spaced(env, v, k);
  }

  /** No plan sends a crew to two places at once: of two visits by one crew, the one later in its day
      starts after the earlier has ended and the crew has driven over. */
  lemma {:induction false} NoCrewIsInTwoPlaces(problem: Problem, a: Assignment, b: Assignment)
    requires forall r :: r in problem.requirements ==> r.duration > 0
    requires a in PlanOf(problem).assignments && b in PlanOf(problem).assignments
    requires a.crewId == b.crewId && a != b
    ensures a.end + b.travelTicks <= b.start || b.end + a.travelTicks <= a.start
  {
    hide PlanOf, Run, RouteSafe, Jobs, Start;
    var v, i := PlannedVisit(problem, a);
    var w, j := PlannedVisit(problem, b);
    assert v == w;
    if i < j { VisitsAreInOrder(problem.env, v, i, j); } else { VisitsAreInOrder(problem.env, v, j, i); }
  }

  /** `asg` is what the n-th job was given: the best attempt at that point, clear of all twelve
      constraints, priced from where the crew then stood. */
  ghost predicate PlacedAt(env: Env, crews: seq<CrewSlot>, jobs: seq<Requirement>, asg: Assignment, n: nat)
    requires n < |jobs|
  {
    var day := Run(env, StartOf(crews), jobs[..n]);
    var best := Best(AttemptsOf(env, jobs[n], day));
    && best.Some? && best.value.crewId in day.routes
    && var v := day.routes[best.value.crewId];
       && asg == AssignmentFor(best.value, |v.assignments|) && asg.requirementId == jobs[n].id
       && asg.travelTicks == env.travel(v.Where(), jobs[n].location, jobs[n].area).ticks
       && asg.end == asg.start + jobs[n].duration
       && Feasible(best.value.candidate, env.policy) && !TooLate(best.value.candidate)
       && best.value.candidate.scheduled == Members(day.ledger.scheduled)
  }

  lemma {:induction false} EveryAssignmentWasPlaced(env: Env, crews: seq<CrewSlot>, jobs: seq<Requirement>, id: Id, k: nat) returns (n: nat)
    requires id in Run(env, StartOf(crews), jobs).routes
    requires k < |Run(env, StartOf(crews), jobs).routes[id].assignments|
    ensures n < |jobs| && PlacedAt(env, crews, jobs, Run(env, StartOf(crews), jobs).routes[id].assignments[k], n)
  {
    hide AttemptsOf, Best, Step, PlacedAt;
    n := 0;
    if jobs != [] {
      var last := |jobs| - 1;
      var day := Run(env, StartOf(crews), jobs[..last]);
      LastTurnPlaces(env, crews, jobs, id, k);
      if id in day.routes && k < |day.routes[id].assignments| {
        n := EveryAssignmentWasPlaced(env, crews, jobs[..last], id, k);
        EarlierTurnStands(env, crews, jobs, day.routes[id].assignments[k], n);
      } else {
        n := last;
      }
    }
  }

  lemma EarlierTurnStands(env: Env, crews: seq<CrewSlot>, jobs: seq<Requirement>, asg: Assignment, n: nat)
    requires n < |jobs| - 1 && PlacedAt(env, crews, jobs[..|jobs| - 1], asg, n)
    ensures PlacedAt(env, crews, jobs, asg, n)
  {
    hide AttemptsOf, Best, Step, Run;
    assert jobs[..|jobs| - 1][..n] == jobs[..n];
  }

  lemma LastTurnPlaces(env: Env, crews: seq<CrewSlot>, jobs: seq<Requirement>, id: Id, k: nat)
    requires jobs != [] && id in Run(env, StartOf(crews), jobs).routes
    requires k < |Run(env, StartOf(crews), jobs).routes[id].assignments|
    ensures var day := Run(env, StartOf(crews), jobs[..|jobs| - 1]);
      var asg := Run(env, StartOf(crews), jobs).routes[id].assignments[k];
      if id in day.routes && k < |day.routes[id].assignments| then asg == day.routes[id].assignments[k]
      else PlacedAt(env, crews, jobs, asg, |jobs| - 1)
  {
    hide AttemptsOf, Best, WhyNot, SatisfiedNote, Step, WindowStarts, Feasible, TooLate;
    var last := |jobs| - 1;
    var day := Run(env, StartOf(crews), jobs[..last]);
    StepCases(env, day, jobs[last]);
    if Best(AttemptsOf(env, jobs[last], day)).Some? { AcceptedFits(env, day, jobs[last]); }
  }

  // -- where a crew drives from ------------------------------------------------------------------

  /** Where a crew stands after its visits so far: at the last job, if its place is known, and else, as
      before the first, at its base. */
  ghost predicate StandsAt(all: seq<Requirement>, crew: CrewSlot, visits: seq<Assignment>, from: Position) {
    if visits == [] then from == crew.base
    else exists r :: r in all && r.id == visits[|visits| - 1].requirementId && from == PlaceOf(r, crew)
  }

  function PlaceOf(r: Requirement, crew: CrewSlot): Position {
    if r.location.lat.Some? && r.location.lon.Some? then r.location else crew.base
  }

  /** The k-th visit's drive is priced from where the crew stood after the ones before. */
  ghost predicate Drove(env: Env, all: seq<Requirement>, crew: CrewSlot, visits: seq<Assignment>, k: nat)
    requires k < |visits|
  {
    exists r, from :: r in all && r.id == visits[k].requirementId
      && StandsAt(all, crew, visits[..k], from) && visits[k].travelTicks == env.travel(from, r.location, r.area).ticks
  }

  ghost predicate Driven(env: Env, all: seq<Requirement>, v: RouteView) {
    && StandsAt(all, v.crew, v.assignments, v.Where())
    && forall k :: 0 <= k < |v.assignments| ==> Drove(env, all, v.crew, v.assignments, k)
  }

  lemma AcceptKeepsDriven(env: Env, all: seq<Requirement>, v: RouteView, a: Attempt, r: Requirement)
    requires Driven(env, all, v) && r in all && a.candidate.requirement == r
    requires a.candidate.travel == env.travel(v.Where(), r.location, r.area)
    ensures Driven(env, all, v.Accept(a))
  {
    hide StandsAt;
    var next := v.Accept(a);
    StandsAtLast(all, next.crew, next.assignments, r);
    forall k | 0 <= k < |next.assignments| ensures Drove(env, all, next.crew, next.assignments, k) {
      assert next.assignments[..k] == v.assignments[..k];
      if k < |v.assignments| { assert Drove(env, all, v.crew, v.assignments, k); } else { assert v.assignments[..k] == v.assignments; }
    }
  }

  lemma StandsAtLast(all: seq<Requirement>, crew: CrewSlot, visits: seq<Assignment>, r: Requirement)
    requires visits != [] && r in all && visits[|visits| - 1].requirementId == r.id
    ensures StandsAt(all, crew, visits, PlaceOf(r, crew))
  {
  }

  lemma StepKeepsDriven(env: Env, all: seq<Requirement>, day: Day, r: Requirement)
    requires r in all && forall id :: id in day.routes ==> Driven(env, all, day.routes[id])
    ensures forall id :: id in Step(env, day, r).routes ==> Driven(env, all, Step(env, day, r).routes[id])
  {
    hide AttemptsOf, Best, WhyNot, SatisfiedNote, Step, Feasible, Driven, TooLate, RouteView.Where, RouteView.Accept, RouteView.ReadyAt;
    StepCases(env, day, r);
    if Best(AttemptsOf(env, r, day)).Some? {
      AcceptedFits(env, day, r);
      var a := Best(AttemptsOf(env, r, day)).value;
      AcceptKeepsDriven(env, all, day.routes[a.crewId], a, r);
    }
  }

  /** Over any run every drive starts where the crew's last job left it, and the crew now stands there. */
  lemma {:induction false} DrivesStartAtTheLastJob(env: Env, crews: seq<CrewSlot>, jobs: seq<Requirement>, all: seq<Requirement>)
    requires forall r :: r in jobs ==> r in all
    ensures forall id :: id in Run(env, StartOf(crews), jobs).routes ==> Driven(env, all, Run(env, StartOf(crews), jobs).routes[id])
  {
    hide Step;
    if jobs != [] {
      hide Driven;
      var n := |jobs| - 1;
      assert jobs == jobs[..n] + [jobs[n]];
      DrivesStartAtTheLastJob(env, crews, jobs[..n], all);
      StepKeepsDriven(env, all, Run(env, StartOf(crews), jobs[..n]), jobs[n]);
    }
  }

  // -- what a crew is offered --------------------------------------------------------------------

  /** A crew is offered the job from where it stands, from the first instant it could be there: not before
      now, its shift, the end of its last visit, each with the drive on top, nor before the job may start;
      and with its visits so far counted against its limits. */
  ghost predicate Tight(env: Env, all: seq<Requirement>, r: Requirement, v: RouteView, o: Offer) {
    var drive := o.slot.travel.ticks;
    var ended := if v.assignments == [] then v.crew.availableFrom else v.assignments[|v.assignments| - 1].end;
    && o.slot.requirement == r && o.slot.crew == v.crew && o.slot.jobsAssigned == |v.assignments|
    && (exists from :: StandsAt(all, v.crew, v.assignments, from) && o.slot.travel == env.travel(from, r.location, r.area))
    && o.earliest >= env.now + drive && o.earliest >= v.crew.availableFrom + drive && o.earliest >= ended + drive
    && (r.earliestStart.Some? ==> o.earliest >= r.earliestStart.value)
    && (|| o.earliest == env.now + drive || o.earliest == v.crew.availableFrom + drive || o.earliest == ended + drive
        || r.earliestStart == Some(o.earliest))
  }

  lemma OfferIsTight(env: Env, all: seq<Requirement>, r: Requirement, v: RouteView, scheduled: set<Id>)
    requires Driven(env, all, v) && RouteSafe(env, v)
    ensures Tight(env, all, r, v, OfferOf(env, r, v, scheduled))
    ensures OfferOf(env, r, v, scheduled).slot.context == ContextFor(env, r.id)
  {
    hide StandsAt, ContextFor;
  }

  /** Whenever a job's turn comes, every crew makes a tight offer, knowing exactly the jobs already given
      out to anyone. */
  lemma OffersAreTight(env: Env, crews: seq<CrewSlot>, jobs: seq<Requirement>, r: Requirement, id: Id)
    requires (forall x :: x in jobs ==> x.duration > 0) && id in Run(env, StartOf(crews), jobs).routes
    ensures var day := Run(env, StartOf(crews), jobs);
      var o := OfferOf(env, r, day.routes[id], Members(day.ledger.scheduled));
      && o in Offers(env, r, day) && Tight(env, jobs, r, day.routes[id], o)
      && forall x :: x in o.slot.scheduled <==> x in Project(Carried(day), JobOf)
  {
    hide Run, Driven, RouteSafe, Tight, ContextFor, Flatten, Project;
    var day := Run(env, StartOf(crews), jobs);
    DrivesStartAtTheLastJob(env, crews, jobs, jobs);
    SchedulesAreSafe(env, crews, jobs);
    OfferIsTight(env, jobs, r, day.routes[id], Members(day.ledger.scheduled));
    RunCarries(env, crews, jobs);
    SameMembers(Project(Carried(day), JobOf), day.ledger.scheduled);
    assert OfferOf(env, r, day.routes[id], Members(day.ledger.scheduled)).slot.scheduled == Members(day.ledger.scheduled);
  }

  // -- what the plan adds up to ------------------------------------------------------------------

  /** The attempts accepted, turn by turn. */
  function Accepted(env: Env, crews: seq<CrewSlot>, jobs: seq<Requirement>): seq<Attempt> {
    if jobs == [] then []
    else
      var n := |jobs| - 1;
      var best := Best(AttemptsOf(env, jobs[n], Run(env, StartOf(crews), jobs[..n])));
      Accepted(env, crews, jobs[..n]) + if best.Some? then [best.value] else []
  }

  function Scores(xs: seq<Attempt>): seq<real> {
    seq(|xs|, i requires 0 <= i < |xs| => if xs[i].score.Some? then xs[i].score.value.Total() else 0.0)
  }

  function Sum(xs: seq<real>): real { if xs == [] then 0.0 else xs[0] + Sum(xs[1..]) }

  lemma {:induction false} SumLast(xs: seq<real>, x: real)
    ensures Sum(xs + [x]) == Sum(xs) + x
  {
    if xs == [] {
      assert [] + [x] == [x] && [x][1..] == [];
    } else {
      assert (xs + [x])[1..] == xs[1..] + [x];
      SumLast(xs[1..], x);
    }
  }

  /** The ledger's totals are those of the accepted attempts, in order. */
  ghost predicate Tallies(l: Ledger, accepted: seq<Attempt>) {
    && l.total == Sum(Scores(accepted)) && |l.scheduled| == |accepted| && l.bases == BasesOf(accepted)
    && forall i :: 0 <= i < |accepted| ==> accepted[i].score.Some? && accepted[i].candidate.requirement.id == l.scheduled[i]
  }

  lemma TakeTallies(l: Ledger, accepted: seq<Attempt>, id: Id, a: Attempt, note: string)
    requires Tallies(l, accepted) && a.score.Some? && a.candidate.requirement.id == id
    ensures Tallies(l.Take(id, a, note), accepted + [a])
  {
    hide Sum, Scores, BasesOf, Score.Total;
    AcceptedGrows(accepted, a);
    SumLast(Scores(accepted), a.score.value.Total());
  }

  lemma {:induction false} RunAddsUp(env: Env, crews: seq<CrewSlot>, jobs: seq<Requirement>)
    ensures Tallies(Run(env, StartOf(crews), jobs).ledger, Accepted(env, crews, jobs))
  {
    hide AttemptsOf, Best, WhyNot, SatisfiedNote, Step, Feasible, TooLate, Tallies, Ledger.Take;
    if jobs == [] {
      NothingTallies();
    } else {
      var n := |jobs| - 1;
      var day := Run(env, StartOf(crews), jobs[..n]);
      var before := Accepted(env, crews, jobs[..n]);
      RunAddsUp(env, crews, jobs[..n]);
      StepCases(env, day, jobs[n]);
      var best := Best(AttemptsOf(env, jobs[n], day));
      if best.Some? {
        AcceptedFits(env, day, jobs[n]);
        TakeTallies(day.ledger, before, jobs[n].id, best.value, SatisfiedNote(best.value.candidate, env.policy));
      } else {
        assert Accepted(env, crews, jobs) == before;
        RefuseTallies(day.ledger, before, jobs[n].id, WhyNot(AttemptsOf(env, jobs[n], day)));
      }
    }
  }

  lemma RefuseTallies(l: Ledger, accepted: seq<Attempt>, id: Id, why: string)
    requires Tallies(l, accepted)
    ensures Tallies(l.Refuse(id, why), accepted)
  {
  }

  lemma NothingTallies()
    ensures Tallies(EMPTY, [])
  {
  }

  function BasesOf(xs: seq<Attempt>): set<Basis> { set x | x in xs :: x.candidate.travel.basis }

  lemma AcceptedGrows(before: seq<Attempt>, a: Attempt)
    requires a.score.Some?
    ensures Scores(before + [a]) == Scores(before) + [a.score.value.Total()]
    ensures BasesOf(before + [a]) == BasesOf(before) + {a.candidate.travel.basis}
  {
    hide Score.Total;
    assert forall x :: x in before + [a] <==> x in before || x == a;
  }

  lemma {:induction false} TravelAdds(xs: seq<Assignment>, ys: seq<Assignment>)
    ensures TravelSum(xs + ys) == TravelSum(xs) + TravelSum(ys)
    ensures forall a: Assignment :: TravelSum([a]) == a.travelTicks
  {
    forall a: Assignment ensures TravelSum([a]) == a.travelTicks { assert TravelSum([a]) == TravelSum([a][..0]) + a.travelTicks; }
    if ys == [] {
      assert xs + ys == xs;
    } else {
      var n := |ys| - 1;
      assert (xs + ys)[..|xs + ys| - 1] == xs + ys[..n];
      TravelAdds(xs, ys[..n]);
    }
  }

  /** What the plan reports of itself: the objective is the sum of the scores accepted, turn by turn; the
      travel label is one basis if every accepted drive had it, "none" without any and "mixed" otherwise;
      and both lists are in order. */
  lemma PlanAddsUp(problem: Problem)
    ensures var plan := PlanOf(problem);
      var accepted := Accepted(problem.env, Sort(problem.crews, CrewLeq), Jobs(problem));
      && plan.objective == Sum(Scores(accepted)) && |plan.assignments| == |accepted|
      && plan.totalTravel == TravelSum(plan.assignments)
      && (plan.basis == "none" <==> accepted == [])
      && (forall b: Basis :: plan.basis == BasisText(b) <==>
           accepted != [] && forall i :: 0 <= i < |accepted| ==> accepted[i].candidate.travel.basis == b)
      && (forall i, j :: 0 <= i < j < |plan.assignments| ==> InPlanOrder(plan.assignments[i], plan.assignments[j]))
      && (forall i, j :: 0 <= i < j < |plan.unassigned| ==> plan.unassigned[i] <= plan.unassigned[j])
  {
    hide Run, Sort, QueueOf, ByUrgency, Flatten, Accepted, Sum, AttemptsOf, Project, Scores;
    var env, jobs, crews := problem.env, Jobs(problem), Sort(problem.crews, CrewLeq);
    var day := Run(env, StartOf(crews), jobs);
    RunAddsUp(env, crews, jobs);
    RunCarries(env, crews, jobs);
    SameMembers(Project(Carried(day), JobOf), day.ledger.scheduled);
    ProjectIsAsLong(Carried(day));
    SameMembers(Carried(day), PlanOf(problem).assignments);
    LabelTells(env, Accepted(env, crews, jobs), day.ledger.bases);
    PlanIsSorted(day);
  }

  lemma ProjectIsAsLong(xs: seq<Assignment>)
    ensures |Project(xs, JobOf)| == |xs|
  {
  }

  function BasisText(b: Basis): string {
    match b case Routed => "routed" case Estimated => "estimated" case Unknown => "unknown"
  }

  lemma LabelTells(env: Env, accepted: seq<Attempt>, bases: set<Basis>)
    requires bases == BasesOf(accepted)
    ensures BasisLabel(bases) == "none" <==> accepted == []
    ensures forall b: Basis :: BasisLabel(bases) == BasisText(b) <==>
      accepted != [] && forall i :: 0 <= i < |accepted| ==> accepted[i].candidate.travel.basis == b
  {
    assert accepted != [] ==> accepted[0] in accepted && accepted[0].candidate.travel.basis in bases;
    forall b: Basis
      ensures BasisLabel(bases) == BasisText(b) <==>
        accepted != [] && forall i :: 0 <= i < |accepted| ==> accepted[i].candidate.travel.basis == b
    {
      TextsDiffer(bases, b);
      if accepted != [] && forall i :: 0 <= i < |accepted| ==> accepted[i].candidate.travel.basis == b {
        assert bases == {b};
      }
      if bases == {b} {
        forall i | 0 <= i < |accepted| ensures accepted[i].candidate.travel.basis == b {
          assert accepted[i] in accepted && accepted[i].candidate.travel.basis in bases;
        }
      }
    }
  }

  lemma TextsDiffer(bases: set<Basis>, b: Basis)
    ensures BasisLabel(bases) == BasisText(b) <==> bases == {b}
    ensures BasisLabel(bases) == "none" <==> bases == {}
  {
    assert {Routed} != {Estimated} && {Routed} != {Unknown} && {Estimated} != {Unknown} by {
      assert Routed in {Routed} && Estimated in {Estimated} && Routed !in {Estimated} && Routed !in {Unknown} && Estimated !in {Unknown};
    }
    assert |"routed"| == 6 && |"estimated"| == 9 && |"unknown"| == 7 && |"mixed"| == 5 && |"none"| == 4;
  }

  predicate InPlanOrder(a: Assignment, b: Assignment) {
    a.start < b.start || (a.start == b.start && (a.crewId < b.crewId || (a.crewId == b.crewId && a.requirementId <= b.requirementId)))
  }

  lemma PlanIsSorted(day: Day)
    ensures var plan := Finish(day);
      && (forall i, j :: 0 <= i < j < |plan.assignments| ==> InPlanOrder(plan.assignments[i], plan.assignments[j]))
      && (forall i, j :: 0 <= i < j < |plan.unassigned| ==> plan.unassigned[i] <= plan.unassigned[j])
  {
    hide Sort, Flatten;
    SortSorts(Flatten(day.routes, SortedSet(day.routes.Keys)), AssignmentLeq);
    SortSorts(day.ledger.unassigned, IntLeq);
  }

  // -- predecessors first ------------------------------------------------------------------------

  /** Placement order is a topological order of the placed jobs. */
  ghost predicate Topological(env: Env, scheduled: seq<Id>) {
    forall i, d :: 0 <= i < |scheduled| && d in ContextFor(env, scheduled[i]).dependsOn ==> d in scheduled[..i]
  }

  lemma PlacedAfterItsDeps(env: Env, day: Day, r: Requirement)
    requires Best(AttemptsOf(env, r, day)).Some?
    ensures forall d :: d in ContextFor(env, r.id).dependsOn ==> d in day.ledger.scheduled
  {
    hide AttemptsOf, Best, Feasible, TooLate;
    AcceptedFits(env, day, r);
    var c := Best(AttemptsOf(env, r, day)).value.candidate;
    FeasibleMeans(c, env.policy);
    forall d | d in ContextFor(env, r.id).dependsOn ensures d in day.ledger.scheduled {
      assert d in Members(c.context.dependsOn);
      assert d in Members(day.ledger.scheduled);
    }
  }

  lemma TopologicalAppend(env: Env, before: seq<Id>, id: Id)
    ensures Topological(env, before + [id]) <==>
      Topological(env, before) && forall d :: d in ContextFor(env, id).dependsOn ==> d in before
  {
    hide ContextFor;
    var after := before + [id];
    assert after[|before|] == id && after[..|before|] == before;
    forall i | 0 <= i < |before| ensures after[..i] == before[..i] && after[i] == before[i] {}
  }

  lemma {:induction false} PlacementIsTopological(env: Env, crews: seq<CrewSlot>, jobs: seq<Requirement>)
    ensures Topological(env, Run(env, StartOf(crews), jobs).ledger.scheduled)
  {
    hide AttemptsOf, Best, WhyNot, SatisfiedNote, Step, ContextFor, Topological;
    if jobs == [] {
      NothingIsTopological(env);
    } else {
      var n := |jobs| - 1;
      PlacementIsTopological(env, crews, jobs[..n]);
      var day := Run(env, StartOf(crews), jobs[..n]);
      StepCases(env, day, jobs[n]);
      if Best(AttemptsOf(env, jobs[n], day)).Some? {
        PlacedAfterItsDeps(env, day, jobs[n]);
        TopologicalAppend(env, day.ledger.scheduled, jobs[n].id);
      }
    }
  }

  lemma NothingIsTopological(env: Env)
    ensures Topological(env, [])
  {
  }

  /** Every job in the set waits for some job in the set: a cycle, or anything that leads round one. */
  ghost predicate WaitingOnEachOther(env: Env, stuck: set<Id>) {
    forall id :: id in stuck ==> exists d :: d in stuck && d in ContextFor(env, id).dependsOn
  }

  lemma WaitsForOneNot(env: Env, stuck: set<Id>, before: seq<Id>, id: Id)
    requires WaitingOnEachOther(env, stuck)
    requires forall d :: d in ContextFor(env, id).dependsOn ==> d in before
    requires forall d :: d in stuck ==> d !in before
    ensures id !in stuck
  {
  }

  /** Jobs that wait for each other, directly or round a cycle, are never placed. */
  lemma CyclesAreNeverPlaced(env: Env, crews: seq<CrewSlot>, jobs: seq<Requirement>, stuck: set<Id>)
    requires WaitingOnEachOther(env, stuck)
    ensures forall id :: id in stuck ==> id !in Run(env, StartOf(crews), jobs).ledger.scheduled
  {
    PlacementIsTopological(env, crews, jobs);
    NoCycleIsTopological(env, Run(env, StartOf(crews), jobs).ledger.scheduled, stuck);
  }

  lemma {:induction false} NoCycleIsTopological(env: Env, scheduled: seq<Id>, stuck: set<Id>)
    requires Topological(env, scheduled) && WaitingOnEachOther(env, stuck)
    ensures forall id :: id in stuck ==> id !in scheduled
  {
    hide Topological, ContextFor, WaitingOnEachOther;
    if scheduled != [] {
      var n := |scheduled| - 1;
      assert scheduled == scheduled[..n] + [scheduled[n]];
      TopologicalAppend(env, scheduled[..n], scheduled[n]);
      NoCycleIsTopological(env, scheduled[..n], stuck);
      WaitsForOneNot(env, stuck, scheduled[..n], scheduled[n]);
    }
  }

  // -- every reason readable ---------------------------------------------------------------------

  function ReasonFor(env: Env, day: Day, r: Requirement): string {
    var attempts := AttemptsOf(env, r, day);
    if Best(attempts).None? then WhyNot(attempts) else SatisfiedNote(Best(attempts).value.candidate, env.policy)
  }

  /** The explanation kept for a job is the one written when its turn came. */
  ghost predicate Told(env: Env, now: Day, then_: Day, r: Requirement) {
    && r.id in now.ledger.explanations
    && now.ledger.explanations[r.id] == ReasonFor(env, then_, r)
    && (r.id in now.ledger.unassigned <==> Best(AttemptsOf(env, r, then_)).None?)
  }

  lemma TurnTells(env: Env, day: Day, r: Requirement)
    requires r.id !in day.ledger.unassigned
    ensures Told(env, Step(env, day, r), day, r)
  {
    hide AttemptsOf, Best, WhyNot, SatisfiedNote, Step;
    StepCases(env, day, r);
  }

  lemma LaterTurnsKeep(env: Env, day: Day, then_: Day, r: Requirement, next: Requirement)
    requires Told(env, day, then_, r) && next.id != r.id
    ensures Told(env, Step(env, day, next), then_, r)
  {
    hide AttemptsOf, Best, WhyNot, SatisfiedNote, Step, ReasonFor;
    StepCases(env, day, next);
  }

  lemma {:induction false} ReasonsAreKept(env: Env, crews: seq<CrewSlot>, jobs: seq<Requirement>, n: nat)
    requires n < |jobs| && Distinct(Ids(jobs))
    ensures Told(env, Run(env, StartOf(crews), jobs), Run(env, StartOf(crews), jobs[..n]), jobs[n])
  {
    hide Step, Told;
    var last := |jobs| - 1;
    if n < last {
      assert Ids(jobs[..last]) == Ids(jobs)[..last];
      ReasonsAreKept(env, crews, jobs[..last], n);
      assert jobs[..last][..n] == jobs[..n] && Ids(jobs)[n] != Ids(jobs)[last];
      LaterTurnsKeep(env, Run(env, StartOf(crews), jobs[..last]), Run(env, StartOf(crews), jobs[..n]), jobs[n], jobs[last]);
    } else {
      NewIdIsNew(env, crews, jobs);
      TurnTells(env, Run(env, StartOf(crews), jobs[..last]), jobs[last]);
    }
  }

  lemma NewIdIsNew(env: Env, crews: seq<CrewSlot>, jobs: seq<Requirement>)
    requires jobs != [] && Distinct(Ids(jobs))
    ensures jobs[|jobs| - 1].id !in Run(env, StartOf(crews), jobs[..|jobs| - 1]).ledger.unassigned
  {
    hide Step, Run;
    var last := |jobs| - 1;
    RunAccounts(env, crews, jobs[..last]);
    var ids := Project(jobs[..last], IdOf);
    forall i | 0 <= i < last ensures ids[i] != jobs[last].id {
      assert Ids(jobs)[i] != Ids(jobs)[last];
    }
    assert jobs[last].id !in multiset(ids);
  }

  /** The code a job's turn left behind: none for a job that was placed, and otherwise the first refusal
      of a nearest miss, or capacity when there was nothing to try. */
  function TurnCode(env: Env, day: Day, r: Requirement): Option<Code> {
    var attempts := AttemptsOf(env, r, day);
    if Best(attempts).Some? then None
    else if attempts == [] then Some(Capacity)
    else
      var first := FirstViolation(Nearest(attempts).candidate, env.policy);
      if first.None? then None else Some(first.value.code)
  }

  /** The plan's explanation of a job parses to the code of the job's turn, and the job is unassigned
      exactly when there is one. */
  lemma {:induction false} ExplanationsTellAssigned(problem: Problem, n: nat)
    requires Distinct(Ids(problem.requirements)) && n < |Jobs(problem)|
    ensures var plan := PlanOf(problem);
      var r := Jobs(problem)[n];
      var day := Run(problem.env, Start(problem), Jobs(problem)[..n]);
      && r.id in plan.explanations
      && BlockingCode(plan.explanations[r.id]) == TurnCode(problem.env, day, r)
      && (r.id in plan.unassigned <==> TurnCode(problem.env, day, r).Some?)
  {
    hide Run, AttemptsOf, Best, WhyNot, SatisfiedNote, BlockingCode, Sort, QueueOf, Distinct, Flatten, Offers;
    var env, jobs := problem.env, Jobs(problem);
    var crews := Sort(problem.crews, CrewLeq);
    JobsArePermuted(problem);
    ReasonsAreKept(env, crews, jobs, n);
    var day := Run(env, StartOf(crews), jobs[..n]);
    SameMembers(Run(env, StartOf(crews), jobs).ledger.unassigned, PlanOf(problem).unassigned);
    ReasonParses(env, day, jobs[n]);
  }

  lemma ReasonParses(env: Env, day: Day, r: Requirement)
    ensures BlockingCode(ReasonFor(env, day, r)) == TurnCode(env, day, r)
    ensures TurnCode(env, day, r).Some? <==> Best(AttemptsOf(env, r, day)).None?
  {
    hide Gather, WhyNot, SatisfiedNote, BlockingCode, Offers, Nearest, SatisfiedCodes, FirstViolation;
    var offers := Offers(env, r, day);
    if Best(AttemptsOf(env, r, day)).None? {
      RefusalsParse(offers, env.policy);
    } else {
      AcceptanceParses(offers, env.policy);
    }
  }

  // -- the right crew ----------------------------------------------------------------------------

  lemma OffersAreForOneJob(env: Env, day: Day, r: Requirement)
    ensures SameJob(Offers(env, r, day), r)
  {
  }

  /** When a job's turn comes it goes unassigned exactly when no crew could take it at any start
      considered, and otherwise nothing considered beats what it was given. */
  lemma {:induction false} EachTurnIsOptimal(env: Env, day: Day, r: Requirement)
    requires WindowsBind(r, env.policy) && r.duration > 0
    ensures Best(AttemptsOf(env, r, day)).None? <==>
      forall o, s :: o in Offers(env, r, day) && Considered(o, env.policy, s) ==> !Acceptable(o.slot, env.policy, s)
    ensures forall o, s ::
      && Best(AttemptsOf(env, r, day)).Some?
      && o in Offers(env, r, day) && Considered(o, env.policy, s) && Acceptable(o.slot, env.policy, s) ==>
        !Beats(Taking(o.slot, env.policy, s), Best(AttemptsOf(env, r, day)).value)
  {
    hide Gather, Offers, Considered, Acceptable, WindowsBind, SameJob, Taking, Beats;
    OffersAreForOneJob(env, day, r);
    FirstFeasibleIsEnough(Offers(env, r, day), r, env.policy);
  }

  /** A job's turn goes to the crew with the shortest drive of those that could take it, then to the
      earliest start, then to the lowest id; the drive counts for nothing only where its weight is zero. */
  lemma EachTurnGoesToTheNearest(env: Env, day: Day, r: Requirement)
    requires WindowsBind(r, env.policy) && r.duration > 0 && env.policy.weights.travel >= 0.0
    requires Best(AttemptsOf(env, r, day)).Some?
    ensures forall o, s :: o in Offers(env, r, day) && Considered(o, env.policy, s) && Acceptable(o.slot, env.policy, s) ==>
      NearestOf(Best(AttemptsOf(env, r, day)).value, o, s, env.policy)
  {
    hide Gather, Offers, Considered, Acceptable, WindowsBind, SameJob, ContextFor, Best;
    OffersAreForOneJob(env, day, r);
    BestIsTheNearestCrew(Offers(env, r, day), r, ContextFor(env, r.id), env.policy);
  }

  // -- determinism -------------------------------------------------------------------------------

  lemma UrgencyIsAnOrder(env: Env)
    ensures Preorder(ByUrgency(env))
  {
  }

  lemma TieFreeById<T(!new)>(xs: seq<T>, id: T -> Id, leq: (T, T) -> bool)
    requires Distinct(Project(xs, id))
    requires forall a, b :: leq(a, b) && leq(b, a) ==> id(a) == id(b)
    ensures TieFree(xs, leq)
  {
    forall a, b | a in xs && b in xs && leq(a, b) && leq(b, a) ensures a == b {
      var i :| 0 <= i < |xs| && xs[i] == a;
      var j :| 0 <= j < |xs| && xs[j] == b;
      assert Project(xs, id)[i] == Project(xs, id)[j];
    }
  }

  function CrewId(c: CrewSlot): Id { c.id }

  lemma IdsAreProjected(rs: seq<Requirement>)
    ensures Project(rs, IdOf) == Ids(rs)
  {
    assert |Project(rs, IdOf)| == |Ids(rs)|;
    forall i | 0 <= i < |rs| ensures Project(rs, IdOf)[i] == Ids(rs)[i] { assert IdOf(rs[i]) == rs[i].id; }
  }

  /** Shuffling the requirements and the crews gives the identical plan. */
  lemma {:induction false} PlanForgetsInputOrder(p: Problem, q: Problem)
    requires p.env == q.env
    requires multiset(p.requirements) == multiset(q.requirements) && multiset(p.crews) == multiset(q.crews)
    requires Distinct(Ids(p.requirements)) && Distinct(Project(p.crews, CrewId))
    ensures PlanOf(p) == PlanOf(q)
  {
    hide Sort, QueueOf, Finish, Run, Distinct;
    var leq := ByUrgency(p.env);
    UrgencyIsAnOrder(p.env);
    IdsAreProjected(p.requirements);
    TieFreeById(p.requirements, IdOf, leq);
    SortForgetsOrder(p.requirements, q.requirements, leq);
    TieFreeById(p.crews, CrewId, CrewLeq);
    SortForgetsOrder(p.crews, q.crews, CrewLeq);
    SamePlan(p, q);
  }

  lemma SamePlan(p: Problem, q: Problem)
    requires p.env == q.env && Jobs(p) == Jobs(q) && Start(p) == Start(q)
    ensures PlanOf(p) == PlanOf(q)
  {
    hide Jobs, Start, Finish, Run;
  }
}
