/** The greedy solve: the queue in order, each job to its best attempt, every other job explained. */
module Solver {
  import opened Orders
  import opened Constraints
  import opened Objective
  import opened Search
  import opened Choice
  import opened Queue

  /** Everything a solve reads besides the two lists: `travel` is the travel model, total by contract. */
  datatype Env = Env(
    contexts: map<Id, JobContext>, policy: Policy, now: Time,
    travel: (Position, Position, Option<Area>) -> Travel)

  datatype Problem = Problem(requirements: seq<Requirement>, crews: seq<CrewSlot>, env: Env)

  datatype Assignment = Assignment(
    requirementId: Id, crewId: Id, crewType: CrewType, start: Time, end: Time, travelTicks: nat, index: nat)

  datatype Plan = Plan(
    assignments: seq<Assignment>, unassigned: seq<Id>, explanations: map<Id, string>,
    status: string, basis: string, objective: real, totalTravel: nat)

  const NO_CONTEXT := JobContext(None, false, 1, false, None, false, [], [], true)

  function ContextFor(env: Env, id: Id): JobContext {
    if id in env.contexts then env.contexts[id] else NO_CONTEXT
  }

  /** The value of a crew's day so far. */
  datatype RouteView = RouteView(crew: CrewSlot, assignments: seq<Assignment>, freeFrom: Option<Time>, at: Position) {
    function Where(): Position { if at.lat.Some? && at.lon.Some? then at else crew.base }

    function ReadyAt(now: Time): Time {
      Max(Max(if freeFrom.Some? then freeFrom.value else crew.availableFrom, crew.availableFrom), now)
    }

    function Accept(a: Attempt): RouteView {
      this.(assignments := assignments + [AssignmentFor(a, |assignments|)],
            freeFrom := Some(a.candidate.end), at := a.candidate.requirement.location)
    }
  }

  function AssignmentFor(a: Attempt, index: nat): Assignment {
    var c := a.candidate;
    Assignment(c.requirement.id, a.crewId, c.crew.crewType, c.start, c.end, c.travel.ticks, index)
  }

  /** A crew's day as it is being built up. */
  class Route {
    const crew: CrewSlot
    var assignments: seq<Assignment>
    var freeFrom: Option<Time>
    var at: Position

    constructor (crew: CrewSlot)
      ensures this.crew == crew && View() == RouteView(crew, [], None, Position(None, None))
    {
      this.crew := crew;
      assignments, freeFrom, at := [], None, Position(None, None);
    }

    function View(): RouteView reads this { RouteView(crew, assignments, freeFrom, at) }

    method Accept(a: Attempt)
      modifies this
      ensures View() == old(View()).Accept(a)
    {
      assignments := assignments + [AssignmentFor(a, |assignments|)];
      freeFrom := Some(a.candidate.end);
      at := a.candidate.requirement.location;
    }
  }

  type Routes = m: map<Id, RouteView> | forall id :: id in m ==> m[id].crew.id == id witness map[]

  /** The accumulators of one solve. `scheduled` keeps the order jobs were placed in. */
  datatype Ledger = Ledger(
    scheduled: seq<Id>, unassigned: seq<Id>, explanations: map<Id, string>, total: real, bases: set<Basis>)
  {
    function Refuse(id: Id, why: string): Ledger {
      this.(unassigned := unassigned + [id], explanations := explanations[id := why])
    }

    function Take(id: Id, a: Attempt, note: string): Ledger
      requires a.score.Some?
    {
      this.(scheduled := scheduled + [id], explanations := explanations[id := note],
            total := total + a.score.value.Total(), bases := bases + {a.candidate.travel.basis})
    }
  }

  /** What a solve holds between two jobs. */
  datatype Day = Day(routes: Routes, ledger: Ledger)

  // -- attempts ----------------------------------------------------------------------------------

  function OfferOf(env: Env, r: Requirement, view: RouteView, scheduled: set<Id>): Offer {
    var travel := env.travel(view.Where(), r.location, r.area);
    var ready := view.ReadyAt(env.now) + travel.ticks;
    Offer(
      Candidate(r, view.crew, ContextFor(env, r.id), 0, 0, travel, |view.assignments|, scheduled),
      if r.earliestStart.Some? then Max(ready, r.earliestStart.value) else ready)
  }

  function OffersFrom(env: Env, r: Requirement, routes: Routes, ids: seq<Id>, scheduled: set<Id>): (o: seq<Offer>)
    requires forall i :: 0 <= i < |ids| ==> ids[i] in routes
    ensures |o| == |ids|
    ensures forall i :: 0 <= i < |ids| ==> o[i] == OfferOf(env, r, routes[ids[i]], scheduled)
  {
    seq(|ids|, i requires 0 <= i < |ids| => OfferOf(env, r, routes[ids[i]], scheduled))
  }

  /** One offer per crew, in crew id order. */
  function Offers(env: Env, r: Requirement, day: Day): (o: seq<Offer>)
    ensures forall x :: x in o <==> exists id :: id in day.routes && x == OfferOf(env, r, day.routes[id], Members(day.ledger.scheduled))
  {
    var ids := SortedSet(day.routes.Keys);
    var o := OffersFrom(env, r, day.routes, ids, Members(day.ledger.scheduled));
    assert forall id :: id in day.routes ==> id in ids;
    assert forall i :: 0 <= i < |ids| ==> ids[i] in day.routes;
    o
  }

  function AttemptsOf(env: Env, r: Requirement, day: Day): seq<Attempt> { Gather(Offers(env, r, day), env.policy) }

  /** The mutable routes stand for these views, one object per crew. */
  ghost predicate Mirrors(routes: map<Id, Route>, views: map<Id, RouteView>)
    reads routes.Values
  {
    && routes.Keys == views.Keys
    && (forall id :: id in routes ==> routes[id].View() == views[id])
    && (forall i, j :: i in routes && j in routes && i != j ==> routes[i] != routes[j])
  }

  method Attempts(env: Env, r: Requirement, routes: map<Id, Route>, ghost day: Day, scheduled: set<Id>)
    returns (attempts: seq<Attempt>)
    requires Mirrors(routes, day.routes) && scheduled == Members(day.ledger.scheduled)
    ensures attempts == AttemptsOf(env, r, day)
  {
    hide Gather, OfferOf, Tries;
    attempts := [];
    var ids := SortedSet(routes.Keys);
    assert routes.Keys == day.routes.Keys;
    ghost var offers := Offers(env, r, day);
    var i := 0;
    assert offers[..0] == [];
    GatherNothing(env.policy);
    while i < |ids|
      invariant 0 <= i <= |ids|
      invariant attempts == Gather(offers[..i], env.policy)
    {
      var route := routes[ids[i]];
      assert ids[i] in day.routes && day.routes[ids[i]] == route.View();
      var offer := OfferOf(env, r, route.View(), scheduled);
      var windows := SlotWindows(offer.slot);
      var tries := StartsForCrew(offer.slot, env.policy, offer.earliest, windows);
      GatherOne(offers, i, env.policy);
      attempts := attempts + tries;
      i := i + 1;
    }
    assert offers[..i] == offers;
  }

  lemma GatherNothing(p: Policy)
    ensures Gather([], p) == []
  {
  }

  lemma GatherOne(offers: seq<Offer>, i: nat, p: Policy)
    requires i < |offers|
    ensures Gather(offers[..i + 1], p) == Gather(offers[..i], p) + CrewTries(offers[i].slot, p, offers[i].earliest)
  {
    assert offers[..i + 1][..i] == offers[..i];
  }

  // -- one job -----------------------------------------------------------------------------------

  lemma BestHasARoute(env: Env, r: Requirement, day: Day)
    ensures Best(AttemptsOf(env, r, day)).Some? ==>
      var a := Best(AttemptsOf(env, r, day)).value;
      && a.crewId in day.routes
      && var o := OfferOf(env, r, day.routes[a.crewId], Members(day.ledger.scheduled));
         a.candidate == At(o.slot, a.start) && a.start in WindowStarts(o.earliest, SlotWindows(o.slot))
         && Acceptable(o.slot, env.policy, a.start) && a.score == Some(ScoreCandidate(a.candidate, env.policy))
  {
    hide Gather, Acceptable, WindowStarts, Feasible, ScoreCandidate, FirstViolation, AllViolations;
    var offers := Offers(env, r, day);
    if Best(AttemptsOf(env, r, day)).Some? {
      var a := Best(AttemptsOf(env, r, day)).value;
      ChosenIsConsidered(offers, env.policy, a);
      var o :| o in offers && a.start in WindowStarts(o.earliest, SlotWindows(o.slot))
        && Acceptable(o.slot, env.policy, a.start) && a == Evaluate(At(o.slot, a.start), env.policy);
      EvaluateAcceptable(o.slot, env.policy, a.start);
    }
  }

  function Step(env: Env, day: Day, r: Requirement): Day {
    hide WhyNot, SatisfiedNote, Best, AttemptsOf, Acceptable, WindowStarts, ScoreCandidate, OfferOf;
    var attempts := AttemptsOf(env, r, day);
    var best := Best(attempts);
    if best.None? then day.(ledger := day.ledger.Refuse(r.id, WhyNot(attempts)))
    else
      var a := best.value;
      BestHasARoute(env, r, day);
      Day(day.routes[a.crewId := day.routes[a.crewId].Accept(a)],
          day.ledger.Take(r.id, a, SatisfiedNote(a.candidate, env.policy)))
  }

  function Run(env: Env, start: Day, jobs: seq<Requirement>): Day {
    if jobs == [] then start
    else Step(env, Run(env, start, jobs[..|jobs| - 1]), jobs[|jobs| - 1])
  }

  // -- the inputs in order -----------------------------------------------------------------------

  function Rank(env: Env, r: Requirement): real { -UrgencyRank(r, ContextFor(env, r.id), env.policy) }

  predicate RankLeq(env: Env, a: Requirement, b: Requirement) {
    Rank(env, a) < Rank(env, b) || (Rank(env, a) == Rank(env, b) && a.id <= b.id)
  }

  function ByUrgency(env: Env): (Requirement, Requirement) -> bool { (a, b) => RankLeq(env, a, b) }

  predicate CrewLeq(a: CrewSlot, b: CrewSlot) { a.id <= b.id }

  predicate AssignmentLeq(a: Assignment, b: Assignment) {
    a.start < b.start || (a.start == b.start && (a.crewId < b.crewId || (a.crewId == b.crewId && a.requirementId <= b.requirementId)))
  }

  function DepsIn(env: Env, ids: seq<Id>): Deps { map id | id in ids :: ContextFor(env, id).dependsOn }

  function Named(byId: map<Id, Requirement>, ids: seq<Id>): (r: seq<Requirement>)
    requires forall i :: 0 <= i < |ids| ==> ids[i] in byId && byId[ids[i]].id == ids[i]
    ensures Ids(r) == ids && forall x :: x in r ==> x in byId.Values
  {
    if ids == [] then []
    else
      var n := |ids| - 1;
      Named(byId, ids[..n]) + [byId[ids[n]]]
  }

  /** The queue over requirements already sorted by urgency. */
  function QueueOf(env: Env, ordered: seq<Requirement>): (jobs: seq<Requirement>)
    ensures Ids(jobs) == Place(Ids(ordered), DepsIn(env, Ids(ordered)), Members(Ids(ordered)))
    ensures forall r :: r in jobs ==> r in ordered
  {
    hide Place, DepsIn;
    var ids := Ids(ordered);
    var placed := Place(ids, DepsIn(env, ids), Members(ids));
    PlaceAdds(ids, DepsIn(env, ids), Members(ids));
    var byId := ById(ordered);
    assert forall i :: 0 <= i < |placed| ==> placed[i] in Members(placed);
    assert forall i :: 0 <= i < |ids| ==> ordered[i] in ordered && ids[i] == ordered[i].id;
    Named(byId, placed)
  }

  /** Routes by crew id, as the dict comprehension over sorted crews builds them. */
  function RoutesOf(crews: seq<CrewSlot>): (m: Routes)
    ensures forall id :: id in m ==> m[id].assignments == [] && m[id].freeFrom == None && m[id].crew in crews
    ensures forall id :: id in m ==> m[id].at == Position(None, None)
    ensures forall c :: c in crews ==> c.id in m
  {
    if crews == [] then map[]
    else
      var n := |crews| - 1;
      assert crews == crews[..n] + [crews[n]];
      RoutesOf(crews[..n])[crews[n].id := RouteView(crews[n], [], None, Position(None, None))]
  }

  const EMPTY := Ledger([], [], map[], 0.0, {})

  function StartOf(crews: seq<CrewSlot>): Day { Day(RoutesOf(crews), EMPTY) }

  // -- the plan ----------------------------------------------------------------------------------

  function Flatten(routes: Routes, ids: seq<Id>): seq<Assignment>
    requires forall i :: 0 <= i < |ids| ==> ids[i] in routes
  {
    if ids == [] then []
    else
      var n := |ids| - 1;
      Flatten(routes, ids[..n]) + routes[ids[n]].assignments
  }

  function TravelSum(xs: seq<Assignment>): nat {
    if xs == [] then 0 else TravelSum(xs[..|xs| - 1]) + xs[|xs| - 1].travelTicks
  }

  /** One word for how the plan's travel was arrived at. */
  function BasisLabel(bases: set<Basis>): string {
    if bases == {} then "none"
    else if bases == {Routed} then "routed"
    else if bases == {Estimated} then "estimated"
    else if bases == {Unknown} then "unknown"
    else "mixed"
  }

  function PlanFrom(assignments: seq<Assignment>, ledger: Ledger): Plan {
    var sorted := Sort(assignments, AssignmentLeq);
    Plan(sorted, Sort(ledger.unassigned, IntLeq), ledger.explanations,
      if ledger.unassigned == [] then "ok" else "partial",
      BasisLabel(ledger.bases), ledger.total, TravelSum(sorted))
  }

  function Finish(day: Day): Plan {
    PlanFrom(Flatten(day.routes, SortedSet(day.routes.Keys)), day.ledger)
  }

  function Jobs(problem: Problem): seq<Requirement> {
    QueueOf(problem.env, Sort(problem.requirements, ByUrgency(problem.env)))
  }

  function Start(problem: Problem): Day { StartOf(Sort(problem.crews, CrewLeq)) }

  function PlanOf(problem: Problem): Plan { Finish(Run(problem.env, Start(problem), Jobs(problem))) }

  method MakeRoutes(crews: seq<CrewSlot>) returns (routes: map<Id, Route>)
    ensures Mirrors(routes, RoutesOf(crews))
    ensures forall id :: id in routes ==> fresh(routes[id])
  {
    routes := map[];
    var i := 0;
    assert crews[..0] == [];
    while i < |crews|
      invariant 0 <= i <= |crews|
      invariant Mirrors(routes, RoutesOf(crews[..i]))
      invariant forall id :: id in routes ==> fresh(routes[id])
    {
      var route := new Route(crews[i]);
      RoutesOne(crews, i);
      routes := routes[crews[i].id := route];
      i := i + 1;
    }
    assert crews[..i] == crews;
  }

  lemma RoutesOne(crews: seq<CrewSlot>, i: nat)
    requires i < |crews|
    ensures RoutesOf(crews[..i + 1]) == RoutesOf(crews[..i])[crews[i].id := RouteView(crews[i], [], None, Position(None, None))]
  {
    assert crews[..i + 1][..i] == crews[..i];
  }

  method AcceptOn(routes: map<Id, Route>, ghost views: map<Id, RouteView>, a: Attempt)
    requires Mirrors(routes, views) && a.crewId in routes
    modifies routes[a.crewId]
    ensures Mirrors(routes, views[a.crewId := views[a.crewId].Accept(a)])
  {
    routes[a.crewId].Accept(a);
  }

  method Collect(routes: map<Id, Route>, ghost day: Day) returns (assignments: seq<Assignment>)
    requires Mirrors(routes, day.routes)
    ensures assignments == Flatten(day.routes, SortedSet(day.routes.Keys))
  {
    hide SortedSet;
    assignments := [];
    var ids := SortedSet(routes.Keys);
    assert routes.Keys == day.routes.Keys;
    var i := 0;
    while i < |ids|
      invariant 0 <= i <= |ids|
      invariant assignments == Flatten(day.routes, ids[..i])
    {
      assert ids[i] in routes.Keys && day.routes[ids[i]] == routes[ids[i]].View();
      assert ids[..i + 1][..i] == ids[..i];
      assignments := assignments + routes[ids[i]].assignments;
      i := i + 1;
    }
    assert ids[..i] == ids;
  }

  lemma RunNone(env: Env, start: Day)
    ensures Run(env, start, []) == start
  {
  }

  lemma RunOne(env: Env, start: Day, jobs: seq<Requirement>, i: nat)
    requires i < |jobs|
    ensures Run(env, start, jobs[..i + 1]) == Step(env, Run(env, start, jobs[..i]), jobs[i])
  {
    hide Step;
    assert jobs[..i + 1][..i] == jobs[..i];
  }

  lemma StepCases(env: Env, day: Day, r: Requirement)
    ensures Best(AttemptsOf(env, r, day)).None? ==>
      Step(env, day, r) == day.(ledger := day.ledger.Refuse(r.id, WhyNot(AttemptsOf(env, r, day))))
    ensures Best(AttemptsOf(env, r, day)).Some? ==>
      var a := Best(AttemptsOf(env, r, day)).value;
      && a.crewId in day.routes && a.score.Some?
      && Step(env, day, r).routes == day.routes[a.crewId := day.routes[a.crewId].Accept(a)]
      && Step(env, day, r).ledger == day.ledger.Take(r.id, a, SatisfiedNote(a.candidate, env.policy))
  {
    hide WhyNot, SatisfiedNote, AttemptsOf, Acceptable, WindowStarts, ScoreCandidate, OfferOf, Best;
    BestHasARoute(env, r, day);
  }

  method ServeAll(env: Env, jobs: seq<Requirement>, routes: map<Id, Route>, ghost start: Day)
    returns (ledger: Ledger, ghost day: Day)
    requires Mirrors(routes, start.routes) && start.ledger == EMPTY
    modifies routes.Values
    ensures day == Run(env, start, jobs) && Mirrors(routes, day.routes) && ledger == day.ledger
  {
    hide AttemptsOf, Best, WhyNot, SatisfiedNote, Step, RouteView.Accept, Ledger.Take, Ledger.Refuse, Run;
    ledger, day := EMPTY, start;
    var i := 0;
    RunNone(env, day);
    assert jobs[..0] == [];
    while i < |jobs|
      invariant 0 <= i <= |jobs|
      invariant day == Run(env, start, jobs[..i])
      invariant Mirrors(routes, day.routes) && ledger == day.ledger
    {
      var requirement := jobs[i];
      var attempts := Attempts(env, requirement, routes, day, Members(ledger.scheduled));
      var best := Best(attempts);
      RunOne(env, start, jobs, i);
      StepCases(env, day, requirement);
      if best.None? {
        ledger := ledger.Refuse(requirement.id, WhyNot(attempts));
      } else {
        AcceptOn(routes, day.routes, best.value);
        ledger := ledger.Take(requirement.id, best.value, SatisfiedNote(best.value.candidate, env.policy));
      }
      day := Step(env, day, requirement);
      i := i + 1;
    }
    assert jobs[..i] == jobs;
  }

  method QueueJobs(env: Env, ordered: seq<Requirement>) returns (jobs: seq<Requirement>)
    ensures jobs == QueueOf(env, ordered)
  {
    hide Place, DepsIn, Named;
    var ids := Ids(ordered);
    var placed := BuildQueue(ids, DepsIn(env, ids));
    PlaceAdds(ids, DepsIn(env, ids), Members(ids));
    var byId := ById(ordered);
    assert forall i :: 0 <= i < |placed| ==> placed[i] in Members(placed);
    assert forall i :: 0 <= i < |ids| ==> ordered[i] in ordered && ids[i] == ordered[i].id;
    jobs := Named(byId, placed);
  }

  method Solve(problem: Problem) returns (plan: Plan)
    ensures plan == PlanOf(problem)
  {
    hide RoutesOf, QueueOf, Sort, ByUrgency, Run, Flatten;
    var routes := MakeRoutes(Sort(problem.crews, CrewLeq));
    var jobs := QueueJobs(problem.env, Sort(problem.requirements, ByUrgency(problem.env)));
    var ledger, day := ServeAll(problem.env, jobs, routes, Start(problem));
    var assignments := Collect(routes, day);
    plan := PlanFrom(assignments, ledger);
  }
}
