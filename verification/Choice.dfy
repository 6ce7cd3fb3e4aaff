/** Choosing among the attempts for one job: the best feasible one, or the nearest miss. */
module Choice {
  import opened Orders
  import opened Constraints
  import opened Objective
  import opened Search

  // -- the score does not read the clock ---------------------------------------------------------

  /** With no stated window, or an enforced one, every feasible start of one crew scores the same. */
  lemma {:induction false} ScoreIsTimeless(slot: Candidate, p: Policy, a: Time, b: Time)
    requires WindowsBind(slot.requirement, p)
    requires Feasible(At(slot, a), p) && Feasible(At(slot, b), p)
    ensures ScoreCandidate(At(slot, a), p) == ScoreCandidate(At(slot, b), p)
  {
    hide Check;
    CheckIsExact(CustomerAccess, At(slot, a), p);
    CheckIsExact(CustomerAccess, At(slot, b), p);
  }

  lemma OnlyFitReadsTheClock(slot: Candidate, p: Policy, a: Time, b: Time)
    ensures ScoreCandidate(At(slot, b), p).Total() - ScoreCandidate(At(slot, a), p).Total()
      == p.weights.appointment * (AppointmentFit(At(slot, b)) - AppointmentFit(At(slot, a)))
  {
    hide AppointmentFit, SlaUrgency, BlastFraction, SkillOverlap, Minutes;
    Distributes(p.weights.appointment, AppointmentFit(At(slot, b)), AppointmentFit(At(slot, a)));
    var x, y := ScoreCandidate(At(slot, a), p), ScoreCandidate(At(slot, b), p);
    assert y == x.(appointment := y.appointment);
  }

  lemma Distributes(w: real, x: real, y: real)
    ensures w * (x - y) == w * x - w * y
  {
  }

  /** The claim in `_attempts`: a later feasible start never scores better than an earlier one. */
  ghost predicate LaterNeverBetter(r: Requirement, p: Policy) {
    forall slot: Candidate, a: Time, b: Time ::
      slot.requirement == r && a <= b && Feasible(At(slot, a), p) && Feasible(At(slot, b), p) ==>
        ScoreCandidate(At(slot, b), p).Total() <= ScoreCandidate(At(slot, a), p).Total()
  }

  /** A stated window holds the job at a start the cutoff allows. */
  predicate Bookable(r: Requirement, p: Policy, w: Window, s: Time) {
    w in r.customerWindows && Within(w, s, s + r.duration) && BeforeCutoff(r, p, s)
  }

  /** Starting at a midnight before every stated window is feasible too, and scores worse. */
  lemma LaterBetterInAWindow(r: Requirement, p: Policy, w: Window, s: Time)
    requires r.duration > 0 && p.maxJobsPerShift >= 1 && p.maxOvertimeMinutes >= 0
    requires !WindowsBind(r, p) && Bookable(r, p, w, s) && p.weights.appointment > 0.0
    ensures !LaterNeverBetter(r, p)
  {
    hide ScoreCandidate, Feasible, TimeOfDay;
    var early := LastMidnight(Before(r.customerWindows));
    AnyTimeOfDay(s);
    var slot := Willing(r, [], early, s + r.duration);
    WillingIsFeasible(r, p, early, s + r.duration, early);
    WillingIsFeasible(r, p, early, s + r.duration, s);
    OnlyFitReadsTheClock(slot, p, early, s);
    assert AppointmentFit(At(slot, s)) == 1.0;
    assert AppointmentFit(At(slot, early)) == 0.0;
    assert slot.requirement == r && early <= s;
  }

  lemma WillingIsFeasible(r: Requirement, p: Policy, from: Time, until: Time, s: Time)
    requires r.duration > 0 && p.maxJobsPerShift >= 1 && p.maxOvertimeMinutes >= 0
    requires !WindowsBind(r, p) && BeforeCutoff(r, p, s) && from <= s && s + r.duration <= until
    ensures Feasible(At(Willing(r, [], from, until), s), p)
  {
    hide Check, Feasible, StaticOk, TimeOfDay;
    var slot := Willing(r, [], from, until);
    WillingIsAble(r, p, [], from, until);
    FeasibleMeans(At(slot, s), p);
    StaticAnyTime(slot, p, s);
  }

  lemma StaticAnyTime(slot: Candidate, p: Policy, s: Time)
    ensures StaticOk(At(slot, s), p) <==> StaticOk(slot, p)
  {
  }

  /** "Later starts score no better" is true of a job exactly when its windows are absent or enforced,
      or cannot matter: the appointment term carries no weight, or no stated window holds the job at
      a start the island cutoff allows. */
  lemma {:induction false} LaterNeverBetterIff(r: Requirement, p: Policy)
    requires r.duration > 0 && p.maxJobsPerShift >= 1 && p.maxOvertimeMinutes >= 0 && p.weights.appointment >= 0.0
    ensures LaterNeverBetter(r, p) <==>
      || WindowsBind(r, p) || p.weights.appointment == 0.0
      || (forall w, s :: !Bookable(r, p, w, s))
  {
    hide Feasible, ScoreCandidate, BeforeCutoff, Bookable, LaterNeverBetter;
    if w, s :| Bookable(r, p, w, s) && !WindowsBind(r, p) && p.weights.appointment > 0.0 {
      LaterBetterInAWindow(r, p, w, s);
    } else {
      LaterNoBetter(r, p);
    }
  }

  lemma LaterNoBetter(r: Requirement, p: Policy)
    requires WindowsBind(r, p) || p.weights.appointment == 0.0 || (p.weights.appointment > 0.0 && forall w, s :: !Bookable(r, p, w, s))
    ensures LaterNeverBetter(r, p)
  {
    hide Feasible, ScoreCandidate, BeforeCutoff, TimeOfDay;
    forall slot: Candidate, a: Time, b: Time
      | slot.requirement == r && a <= b && Feasible(At(slot, a), p) && Feasible(At(slot, b), p)
      ensures ScoreCandidate(At(slot, b), p).Total() <= ScoreCandidate(At(slot, a), p).Total()
    {
      OnlyFitReadsTheClock(slot, p, a, b);
      if WindowsBind(r, p) {
        ScoreIsTimeless(slot, p, a, b);
      } else {
        FeasibleMeetsCutoff(slot, p, b);
        assert forall w :: w in r.customerWindows && Within(w, b, b + r.duration) ==> Bookable(r, p, w, b);
        NoBetterFit(p.weights.appointment, AppointmentFit(At(slot, b)), AppointmentFit(At(slot, a)));
      }
    }
  }

  lemma NoBetterFit(w: real, later: real, earlier: real)
    requires w == 0.0 || (w > 0.0 && later <= earlier)
    ensures w * (later - earlier) <= 0.0
  {
  }

  lemma FeasibleMeetsCutoff(slot: Candidate, p: Policy, s: Time)
    requires Feasible(At(slot, s), p)
    ensures BeforeCutoff(slot.requirement, p, s)
  {
    hide Check;
    CheckIsExact(RemoteAccessWindow, At(slot, s), p);
  }

  // -- the best attempt --------------------------------------------------------------------------

  /** `a` sorts strictly before `b` under (higher score, earlier start, lower crew id). */
  predicate Beats(a: Attempt, b: Attempt)
    requires a.score.Some? && b.score.Some?
  {
    var x, y := a.score.value.Total(), b.score.value.Total();
    x > y || (x == y && (a.start < b.start || (a.start == b.start && a.crewId < b.crewId)))
  }

  function Best(attempts: seq<Attempt>): (best: Option<Attempt>)
    ensures best.None? <==> !Found(attempts)
    ensures best.Some? ==>
      && best.value in attempts && best.value.score.Some?
      && forall a :: a in attempts && a.score.Some? ==> !Beats(a, best.value)
  {
    if attempts == [] then None
    else
      var n := |attempts| - 1;
      assert attempts == attempts[..n] + [attempts[n]];
      assert attempts[n] in attempts;
      var best := Best(attempts[..n]);
      if attempts[n].score.None? then best
      else if best.None? || Beats(attempts[n], best.value) then Some(attempts[n])
      else best
  }

  /** One crew's offer for the job: the candidate without its times, and when it could first start. */
  datatype Offer = Offer(slot: Candidate, earliest: Time)

  function Gather(offers: seq<Offer>, p: Policy): (r: seq<Attempt>)
    ensures forall a :: a in r <==> exists o :: o in offers && a in CrewTries(o.slot, p, o.earliest)
  {
    if offers == [] then []
    else
      var n := |offers| - 1;
      assert offers == offers[..n] + [offers[n]];
      Gather(offers[..n], p) + CrewTries(offers[n].slot, p, offers[n].earliest)
  }

  predicate SameJob(offers: seq<Offer>, r: Requirement) {
    forall o :: o in offers ==> o.slot.requirement == r && o.slot.crew.availableFrom <= o.earliest
  }

  /** A start the optimum is taken over: any instant, or, where an evening cutoff can hide some, any
      listed start. */
  ghost predicate Considered(o: Offer, p: Policy, s: Time) {
    s in WindowStarts(o.earliest, SlotWindows(o.slot)) || (CutoffHarmless(o.slot.requirement, p) && s >= o.earliest)
  }

  lemma TriedNoLater(o: Offer, p: Policy, s: Time) returns (a: Attempt)
    requires WindowsBind(o.slot.requirement, p) && o.slot.requirement.duration > 0
    requires o.slot.crew.availableFrom <= o.earliest && Considered(o, p, s) && Acceptable(o.slot, p, s)
    ensures a in CrewTries(o.slot, p, o.earliest) && a.score.Some? && a.start <= s
    ensures a == Evaluate(At(o.slot, a.start), p) && Acceptable(o.slot, p, a.start)
  {
    hide Acceptable, WindowStarts, Tries, Evaluate, WindowsBind;
    var starts := WindowStarts(o.earliest, SlotWindows(o.slot));
    var listed := s;
    if s !in starts { listed := ListedStartsSuffice(o.slot, p, o.earliest, s); }
    TriesFindEarliest(o.slot, p, starts);
    a := Tries(o.slot, p, starts)[|Tries(o.slot, p, starts)| - 1];
    ScoredIsAcceptable(o.slot, p, starts, a);
  }

  /** What the attempt at an acceptable start would be. */
  function Taking(slot: Candidate, p: Policy, s: Time): Attempt {
    Attempt(slot.crew.id, s, At(slot, s), Some(ScoreCandidate(At(slot, s), p)), [])
  }

  lemma EvaluateAcceptable(slot: Candidate, p: Policy, s: Time)
    requires Acceptable(slot, p, s)
    ensures Evaluate(At(slot, s), p) == Taking(slot, p, s)
  {
    hide Check, Feasible, FirstViolation, AllViolations;
    ReportsAgree(At(slot, s), p);
  }

  /** Stopping each crew at its first feasible start loses nothing: the choice is the lexicographic
      optimum over every crew and every start considered, evaluated or not. */
  lemma {:induction false} FirstFeasibleIsEnough(offers: seq<Offer>, r: Requirement, p: Policy)
    requires SameJob(offers, r) && WindowsBind(r, p) && r.duration > 0
    ensures Best(Gather(offers, p)).None? <==>
      forall o, s :: o in offers && Considered(o, p, s) ==> !Acceptable(o.slot, p, s)
    ensures forall o, s :: Best(Gather(offers, p)).Some? && o in offers && Considered(o, p, s) && Acceptable(o.slot, p, s) ==>
      !Beats(Taking(o.slot, p, s), Best(Gather(offers, p)).value)
  {
    hide Acceptable, WindowStarts, Tries, Evaluate, WindowsBind, ScoreCandidate, Considered;
    var best := Best(Gather(offers, p));
    forall o, s | o in offers && Considered(o, p, s) && Acceptable(o.slot, p, s)
      ensures best.Some?
      ensures !Beats(Taking(o.slot, p, s), best.value)
    {
      var a := TriedNoLater(o, p, s);
      assert a in Gather(offers, p);
      EvaluateAcceptable(o.slot, p, s);
      EvaluateAcceptable(o.slot, p, a.start);
      FeasibleBoth(o.slot, p, a.start, s);
      ScoreIsTimeless(o.slot, p, a.start, s);
    }
    if best.Some? { ChosenIsConsidered(offers, p, best.value); }
  }

  lemma FeasibleBoth(slot: Candidate, p: Policy, a: Time, b: Time)
    requires Acceptable(slot, p, a) && Acceptable(slot, p, b)
    ensures Feasible(At(slot, a), p) && Feasible(At(slot, b), p)
  {
  }

  /** Whatever is chosen is one crew's candidate at a listed start it could really take. */
  lemma ChosenIsConsidered(offers: seq<Offer>, p: Policy, a: Attempt)
    requires a in Gather(offers, p) && a.score.Some?
    ensures exists o ::
      && o in offers && a.start in WindowStarts(o.earliest, SlotWindows(o.slot))
      && Considered(o, p, a.start) && Acceptable(o.slot, p, a.start) && a == Evaluate(At(o.slot, a.start), p)
  {
    hide Acceptable, WindowStarts, Tries, Evaluate;
    var o :| o in offers && a in CrewTries(o.slot, p, o.earliest);
    ScoredIsAcceptable(o.slot, p, WindowStarts(o.earliest, SlotWindows(o.slot)), a);
  }

  // -- exactly when the first feasible start is enough -------------------------------------------

  predicate InTime(r: Requirement, s: Time) { r.latestFinish.Some? ==> s + r.duration <= r.latestFinish.value }

  /** Stopping each crew at its first feasible start still yields the optimum over the listed starts,
      whatever crews are on offer. */
  ghost predicate FirstIsEnough(r: Requirement, p: Policy) {
    forall offers: seq<Offer>, o: Offer, s: Time ::
      SameJob(offers, r) && o in offers && s in WindowStarts(o.earliest, SlotWindows(o.slot)) && Acceptable(o.slot, p, s) ==>
        NotBeaten(offers, o, p, s)
  }

  predicate NotBeaten(offers: seq<Offer>, o: Offer, p: Policy, s: Time) {
    var best := Best(Gather(offers, p));
    best.Some? && !Beats(Taking(o.slot, p, s), best.value)
  }

  /** No later start of the job can gain by its window. */
  ghost predicate NothingToGain(r: Requirement, p: Policy) {
    || WindowsBind(r, p) || p.weights.appointment == 0.0
    || (forall w, s :: !(Bookable(r, p, w, s) && InTime(r, s)))
  }

  lemma LaterScoresNoMore(slot: Candidate, p: Policy, a: Time, b: Time)
    requires NothingToGain(slot.requirement, p) && p.weights.appointment >= 0.0
    requires Acceptable(slot, p, a) && Acceptable(slot, p, b)
    ensures ScoreCandidate(At(slot, b), p).Total() <= ScoreCandidate(At(slot, a), p).Total()
  {
    hide Feasible, ScoreCandidate, BeforeCutoff, TimeOfDay;
    OnlyFitReadsTheClock(slot, p, a, b);
    if WindowsBind(slot.requirement, p) {
      ScoreIsTimeless(slot, p, a, b);
    } else {
      FeasibleMeetsCutoff(slot, p, b);
      var r := slot.requirement;
      assert InTime(r, b);
      assert forall w :: w in r.customerWindows && Within(w, b, b + r.duration) ==> Bookable(r, p, w, b);
      NoBetterFit(p.weights.appointment, AppointmentFit(At(slot, b)), AppointmentFit(At(slot, a)));
    }
  }

  lemma ListedIsTried(o: Offer, p: Policy, s: Time) returns (a: Attempt)
    requires s in WindowStarts(o.earliest, SlotWindows(o.slot)) && Acceptable(o.slot, p, s)
    ensures a in CrewTries(o.slot, p, o.earliest) && a.score.Some? && o.earliest <= a.start <= s
    ensures Acceptable(o.slot, p, a.start) && a == Taking(o.slot, p, a.start)
    ensures forall x :: x in CrewTries(o.slot, p, o.earliest) && x.score.Some? ==> x == a
  {
    hide Acceptable, WindowStarts, Tries, Evaluate;
    var starts := WindowStarts(o.earliest, SlotWindows(o.slot));
    TriesFindEarliest(o.slot, p, starts);
    a := Tries(o.slot, p, starts)[|Tries(o.slot, p, starts)| - 1];
    ScoredIsAcceptable(o.slot, p, starts, a);
    EvaluateAcceptable(o.slot, p, a.start);
  }

  lemma NothingGained(r: Requirement, p: Policy)
    requires NothingToGain(r, p) && p.weights.appointment >= 0.0
    ensures FirstIsEnough(r, p)
  {
    hide Acceptable, WindowStarts, Tries, ScoreCandidate, NothingToGain, CrewTries, Gather;
    forall offers: seq<Offer>, o: Offer, s: Time
      | SameJob(offers, r) && o in offers && s in WindowStarts(o.earliest, SlotWindows(o.slot)) && Acceptable(o.slot, p, s)
      ensures NotBeaten(offers, o, p, s)
    {
      var a := ListedIsTried(o, p, s);
      assert a in Gather(offers, p);
      LaterScoresNoMore(o.slot, p, a.start, s);
    }
  }

  /** A crew free from a midnight before every stated window, and a building open for that midnight's job
      and for the window's. */
  function Twice(r: Requirement, early: Time, s: Time): Candidate {
    Willing(r, [Window(early, early + r.duration), Window(s, s + r.duration)], early, s + r.duration)
  }

  lemma WillingIsAcceptable(r: Requirement, p: Policy, early: Time, s: Time, t: Time)
    requires r.duration > 0 && p.maxJobsPerShift >= 1 && p.maxOvertimeMinutes >= 0 && !WindowsBind(r, p)
    requires early <= s && (t == early || t == s) && BeforeCutoff(r, p, t) && InTime(r, s)
    ensures Acceptable(Twice(r, early, s), p, t)
  {
    var slot := Twice(r, early, s);
    WillingIsAble(r, p, slot.context.buildingWindows, early, s + r.duration);
    hide Check, Feasible, StaticOk, Acceptable, BeforeCutoff;
    AcceptableMeans(slot, p, t);
    var open := Window(t, t + r.duration);
    assert slot.context.buildingWindows[0] == Window(early, early + r.duration);
    assert slot.context.buildingWindows[1] == Window(s, s + r.duration);
    assert open in slot.context.buildingWindows && Within(open, t, t + r.duration);
  }

  lemma WindowIsListed(r: Requirement, p: Policy, early: Time, w: Window, s: Time)
    requires r.duration > 0 && early < s && Bookable(r, p, w, s)
    ensures s in WindowStarts(early, SlotWindows(Twice(r, early, s)))
  {
    hide WindowStarts, Sort, BeforeCutoff;
    var slot := Twice(r, early, s);
    var b := Window(s, s + r.duration);
    assert slot.context.buildingWindows[1] == b;
    assert Overlaps(w, b) && Overlap(w, b).opens == s;
    SameMembers(AllOverlaps(r.customerWindows, slot.context.buildingWindows), SlotWindows(slot));
    assert Overlap(w, b) in SlotWindows(slot);
  }

  lemma LaterGains(r: Requirement, p: Policy, early: Time, w: Window, s: Time)
    requires w in r.customerWindows && Within(w, s, s + r.duration) && early <= Before(r.customerWindows)
    requires p.weights.appointment > 0.0
    ensures ScoreCandidate(At(Twice(r, early, s), s), p).Total() > ScoreCandidate(At(Twice(r, early, s), early), p).Total()
  {
    hide ScoreCandidate, Willing;
    var slot := Twice(r, early, s);
    TwiceIsFor(r, early, s);
    OnlyFitReadsTheClock(slot, p, early, s);
    assert AppointmentFit(At(slot, s)) == 1.0;
    assert AppointmentFit(At(slot, early)) == 0.0;
  }

  lemma TwiceIsFor(r: Requirement, early: Time, s: Time)
    ensures Twice(r, early, s).requirement == r && Twice(r, early, s).crew.availableFrom == early
  {
  }

  lemma SomethingGained(r: Requirement, p: Policy, w: Window, s: Time)
    requires r.duration > 0 && p.maxJobsPerShift >= 1 && p.maxOvertimeMinutes >= 0 && p.weights.appointment > 0.0
    requires !WindowsBind(r, p) && Bookable(r, p, w, s) && InTime(r, s)
    ensures !FirstIsEnough(r, p)
  {
    hide Acceptable, WindowStarts, ScoreCandidate, TimeOfDay, CrewTries, Twice, SlotWindows, WindowsBind, Best, Gather, InTime;
    var early := LastMidnight(Before(r.customerWindows));
    AnyTimeOfDay(s);
    var slot := Twice(r, early, s);
    var o := Offer(slot, early);
    TwiceIsFor(r, early, s);
    WillingIsAcceptable(r, p, early, s, early);
    WillingIsAcceptable(r, p, early, s, s);
    WindowIsListed(r, p, early, w, s);
    assert WindowStarts(early, SlotWindows(slot))[0] == early;
    var first := ListedIsTried(o, p, early);
    LaterGains(r, p, early, w, s);
    OneOffer(o, p, first);
    assert SameJob([o], r) && o in [o];
    assert !NotBeaten([o], o, p, s);
  }

  lemma OneOffer(o: Offer, p: Policy, first: Attempt)
    requires first in CrewTries(o.slot, p, o.earliest) && first.score.Some?
    requires forall x :: x in CrewTries(o.slot, p, o.earliest) && x.score.Some? ==> x == first
    ensures Best(Gather([o], p)) == Some(first)
  {
    hide CrewTries;
    assert o in [o];
    assert first in Gather([o], p);
    assert forall a :: a in Gather([o], p) ==> a in CrewTries(o.slot, p, o.earliest);
    hide Gather, Best;
  }

  /** The first feasible start is enough over the listed starts exactly when no later start can gain by
      its window: the windows are absent or enforced, the appointment term carries no weight, or no
      stated window holds the job at a start the cutoff and the latest finish allow. */
  lemma FirstFeasibleIsEnoughIff(r: Requirement, p: Policy)
    requires r.duration > 0 && p.maxJobsPerShift >= 1 && p.maxOvertimeMinutes >= 0 && p.weights.appointment >= 0.0
    ensures FirstIsEnough(r, p) <==> NothingToGain(r, p)
    ensures LaterNeverBetter(r, p) ==> FirstIsEnough(r, p)
  {
    hide FirstIsEnough, Bookable, LaterNeverBetter, InTime;
    LaterNeverBetterIff(r, p);
    if NothingToGain(r, p) {
      NothingGained(r, p);
    } else {
      var w, s :| Bookable(r, p, w, s) && InTime(r, s);
      SomethingGained(r, p, w, s);
    }
  }

  // -- travel decides ----------------------------------------------------------------------------

  lemma FeasibleFits(c: Candidate, p: Policy)
    requires Feasible(c, p) && WindowsBind(c.requirement, p)
    ensures SkillOverlap(c.requirement.skills, c.crew.skills) == 1.0
    ensures AppointmentFit(c) == if c.requirement.customerWindows == [] then 0.5 else 1.0
  {
    hide Check;
    CheckIsExact(Skill, c, p);
    CheckIsExact(CustomerAccess, c, p);
    AllHeldIsOne(c.requirement.skills, c.crew.skills);
    hide SkillOverlap;
  }

  lemma AllHeldIsOne(required: seq<string>, held: seq<string>)
    requires Members(required) <= Members(held)
    ensures SkillOverlap(required, held) == 1.0
  {
    if required != [] {
      assert required[0] in Members(required);
      assert Members(required) * Members(held) == Members(required);
      WholeIsOne(|Members(required)|);
    }
  }

  lemma WholeIsOne(n: nat)
    requires n > 0
    ensures n as real / n as real == 1.0
  {
  }

  /** Between feasible candidates for one job the other terms cancel: only travel tells them apart, and
      nothing does when travel carries no weight. */
  lemma TravelDecides(a: Candidate, b: Candidate, p: Policy)
    requires a.requirement == b.requirement && a.context == b.context && WindowsBind(a.requirement, p)
    requires Feasible(a, p) && Feasible(b, p) && p.weights.travel >= 0.0
    ensures ScoreCandidate(a, p).Total() > ScoreCandidate(b, p).Total() <==> p.weights.travel > 0.0 && a.travel.ticks < b.travel.ticks
    ensures ScoreCandidate(a, p).Total() == ScoreCandidate(b, p).Total() <==> p.weights.travel == 0.0 || a.travel.ticks == b.travel.ticks
  {
    FeasibleFits(a, p);
    FeasibleFits(b, p);
    hide AppointmentFit, SlaUrgency, BlastFraction, SkillOverlap, Feasible, WindowsBind;
    var x, y := ScoreCandidate(a, p), ScoreCandidate(b, p);
    assert x == y.(travel := x.travel);
    assert x.travel == TravelCost(p.weights.travel, a.travel.ticks);
    assert y.travel == TravelCost(p.weights.travel, b.travel.ticks);
    FartherCosts(p.weights.travel, a.travel.ticks, b.travel.ticks);
  }

  function TravelCost(w: real, ticks: nat): real { w * Minutes(ticks) }

  lemma FartherCosts(w: real, a: nat, b: nat)
    requires w >= 0.0
    ensures w > 0.0 && a < b <==> TravelCost(w, a) < TravelCost(w, b)
    ensures w == 0.0 || a == b <==> TravelCost(w, a) == TravelCost(w, b)
  {
    hide TravelCost;
    var x, y := TravelCost(w, a), TravelCost(w, b);
    if w == 0.0 {
      TravelIsFree(a);
      TravelIsFree(b);
    } else if a < b {
      LongerCosts(w, a, b);
      assert x < y;
    } else if b < a {
      LongerCosts(w, b, a);
      assert y < x;
    }
  }

  lemma TravelIsFree(a: nat)
    ensures TravelCost(0.0, a) == 0.0
  {
  }

  lemma LongerCosts(w: real, a: nat, b: nat)
    requires w > 0.0 && a < b
    ensures TravelCost(w, a) < TravelCost(w, b)
  {
    var x, y := Minutes(a), Minutes(b);
    assert x < y;
    assert w * (y - x) > 0.0;
    Distributes(w, y, x);
  }

  /** No more travel than an offer's, and, where travel does not tell them apart, no later start and,
      starting together, no higher crew id. */
  predicate NearestOf(best: Attempt, o: Offer, s: Time, p: Policy) {
    && (p.weights.travel > 0.0 ==> best.candidate.travel.ticks <= o.slot.travel.ticks)
    && (p.weights.travel == 0.0 || best.candidate.travel.ticks == o.slot.travel.ticks ==>
         best.start < s || (best.start == s && best.crewId <= o.slot.crew.id))
  }

  /** So the greedy choice is the nearest crew: no acceptable crew and start is closer, none as close
      starts earlier, and none as close and as early has a lower id. With travel weightless it is the
      earliest start, then the lowest id. */
  lemma BestIsTheNearestCrew(offers: seq<Offer>, r: Requirement, context: JobContext, p: Policy)
    requires SameJob(offers, r) && WindowsBind(r, p) && r.duration > 0 && p.weights.travel >= 0.0
    requires forall o :: o in offers ==> o.slot.context == context
    requires Best(Gather(offers, p)).Some?
    ensures forall o, s :: o in offers && Considered(o, p, s) && Acceptable(o.slot, p, s) ==>
      NearestOf(Best(Gather(offers, p)).value, o, s, p)
  {
    hide WindowStarts, Tries, Evaluate, WindowsBind, ScoreCandidate, Considered, Feasible, Gather, TooLate;
    var best := Best(Gather(offers, p)).value;
    FirstFeasibleIsEnough(offers, r, p);
    ChosenIsFeasible(offers, r, context, p, best);
    forall o, s | o in offers && Considered(o, p, s) && Acceptable(o.slot, p, s) ensures NearestOf(best, o, s, p) {
      TravelDecides(Taking(o.slot, p, s).candidate, best.candidate, p);
      assert !Beats(Taking(o.slot, p, s), best);
    }
  }

  lemma ChosenIsFeasible(offers: seq<Offer>, r: Requirement, context: JobContext, p: Policy, a: Attempt)
    requires SameJob(offers, r) && (forall o :: o in offers ==> o.slot.context == context)
    requires a in Gather(offers, p) && a.score.Some?
    ensures a.candidate.requirement == r && a.candidate.context == context && Feasible(a.candidate, p)
    ensures a.score.value == ScoreCandidate(a.candidate, p)
  {
    hide WindowStarts, Tries, Considered, Feasible, Gather, TooLate, ScoreCandidate, FirstViolation, AllViolations;
    ChosenIsConsidered(offers, p, a);
    var o :| o in offers && Considered(o, p, a.start) && Acceptable(o.slot, p, a.start) && a == Evaluate(At(o.slot, a.start), p);
  }

  // -- the nearest miss --------------------------------------------------------------------------

  function Shortfall(vs: seq<Violation>): nat {
    if vs == [] then 0 else vs[0].shortfall + Shortfall(vs[1..])
  }

  /** `a` sorts strictly before `b` under (fewer refusals, smaller shortfall, crew id, start). */
  predicate Nearer(a: Attempt, b: Attempt) {
    var m, n := |a.violations|, |b.violations|;
    var x, y := Shortfall(a.violations), Shortfall(b.violations);
    m < n || (m == n && (x < y || (x == y && (a.crewId < b.crewId || (a.crewId == b.crewId && a.start < b.start)))))
  }

  function Nearest(attempts: seq<Attempt>): (r: Attempt)
    requires attempts != []
    ensures r in attempts && forall a :: a in attempts ==> !Nearer(a, r)
  {
    var n := |attempts| - 1;
    assert attempts == attempts[..n] + [attempts[n]];
    if n == 0 then attempts[0]
    else
      var r := Nearest(attempts[..n]);
      if Nearer(attempts[n], r) then attempts[n] else r
  }

  /** The total shortfall adds up over the refusals. */
  lemma {:induction false} ShortfallAdds(a: seq<Violation>, b: seq<Violation>)
    ensures Shortfall(a + b) == Shortfall(a) + Shortfall(b)
    ensures forall v: Violation :: Shortfall([v]) == v.shortfall
  {
    forall v: Violation ensures Shortfall([v]) == v.shortfall { assert Shortfall([v]) == v.shortfall + Shortfall([v][1..]); }
    if a == [] {
      assert a + b == b;
    } else {
      assert (a + b)[1..] == a[1..] + b;
      ShortfallAdds(a[1..], b);
    }
  }

  /** No attempt was refused on fewer counts; none on as few with a smaller shortfall; and of those the
      nearest miss is the lowest crew id's, at its earliest start. */
  lemma NearestIsLeast(attempts: seq<Attempt>, a: Attempt)
    requires a in attempts
    ensures var near := Nearest(attempts);
      && |near.violations| <= |a.violations|
      && (|near.violations| == |a.violations| ==>
           && Shortfall(near.violations) <= Shortfall(a.violations)
           && (Shortfall(near.violations) == Shortfall(a.violations) ==>
                near.crewId < a.crewId || (near.crewId == a.crewId && near.start <= a.start)))
  {
    assert !Nearer(a, Nearest(attempts));
    hide Nearest;
  }

  /** No feasible attempt scores higher; none scores the same and starts earlier; and of those the best is
      the lowest crew id's. */
  lemma BestIsGreatest(attempts: seq<Attempt>, a: Attempt)
    requires a in attempts && a.score.Some?
    ensures Best(attempts).Some? && Best(attempts).value.score.Some?
    ensures var best := Best(attempts).value;
      && a.score.value.Total() <= best.score.value.Total()
      && (a.score.value.Total() == best.score.value.Total() ==>
           best.start < a.start || (best.start == a.start && best.crewId <= a.crewId))
  {
    hide Best;
    assert Found(attempts);
    assert !Beats(a, Best(attempts).value);
  }

  function CodesOf(vs: seq<Violation>): seq<Code> { seq(|vs|, i requires 0 <= i < |vs| => vs[i].code) }

  function JoinDetails(vs: seq<Violation>): string {
    if vs == [] then "" else if |vs| == 1 then vs[0].detail
    else vs[0].detail + "; " + JoinDetails(vs[1..])
  }

  const NO_CREWS := Violation(Capacity, "no crew slots were supplied to the optimizer", 1)

  /** The nearest miss, rendered. */
  function WhyNot(attempts: seq<Attempt>): string {
    if attempts == [] then Render(NO_CREWS)
    else
      var vs := Nearest(attempts).violations;
      (if vs != [] then vs[0].code else Capacity).Text()
        + (": blocked by " + JoinCodes(CodesOf(vs)) + " -- " + JoinDetails(vs))
  }

  function SatisfiedNote(c: Candidate, p: Policy): string { "satisfied" + (": " + JoinCodes(SatisfiedCodes(c, p))) }

  /** Every attempt records its own verdict: a score and nothing refused, or the full refusal list. */
  lemma {:induction false} AttemptsAreVerdicts(offers: seq<Offer>, p: Policy, a: Attempt)
    requires a in Gather(offers, p)
    ensures a.violations == AllViolations(a.candidate, p)
    ensures a.score.Some? <==> Feasible(a.candidate, p)
    ensures a.score.None? ==> a.violations != [] && FirstViolation(a.candidate, p) == Some(a.violations[0])
    ensures exists o :: o in offers && a.crewId == o.slot.crew.id && a.candidate == At(o.slot, a.start)
  {
    hide WindowStarts, Tries, Check, Feasible, FirstViolation, AllViolations;
    var o :| o in offers && a in CrewTries(o.slot, p, o.earliest);
    TriesFindEarliest(o.slot, p, WindowStarts(o.earliest, SlotWindows(o.slot)));
    ReportsAgree(a.candidate, p);
  }

  /** A job nobody can take carries the first refusal of a true nearest miss, and that code is what
      the router reads back. */
  lemma {:induction false} RefusalsParse(offers: seq<Offer>, p: Policy)
    requires Best(Gather(offers, p)).None?
    ensures var attempts := Gather(offers, p);
      if attempts == [] then BlockingCode(WhyNot(attempts)) == Some(Capacity)
      else
        && FirstViolation(Nearest(attempts).candidate, p).Some?
        && BlockingCode(WhyNot(attempts)) == Some(FirstViolation(Nearest(attempts).candidate, p).value.code)
  {
    hide BlockingCode, FirstViolation, AllViolations, Gather, Feasible;
    var attempts := Gather(offers, p);
    if attempts == [] {
      CodeRoundTrips(Capacity, ": " + NO_CREWS.detail);
      assert Render(NO_CREWS) == Capacity.Text() + (": " + NO_CREWS.detail);
    } else {
      var near := Nearest(attempts);
      AttemptsAreVerdicts(offers, p, near);
      var vs := near.violations;
      assert near.score.None?;
      CodeRoundTrips(vs[0].code, ": blocked by " + JoinCodes(CodesOf(vs)) + " -- " + JoinDetails(vs));
    }
  }

  /** An accepted job's note lists all twelve constraints and parses to no code. */
  lemma {:induction false} AcceptanceParses(offers: seq<Offer>, p: Policy)
    requires Best(Gather(offers, p)).Some?
    ensures var c := Best(Gather(offers, p)).value.candidate;
      BlockingCode(SatisfiedNote(c, p)) == None && SatisfiedCodes(c, p) == CODES
  {
    hide BlockingCode, Gather, Check, Feasible, AllViolations;
    var a := Best(Gather(offers, p)).value;
    AttemptsAreVerdicts(offers, p, a);
    ReportsAgree(a.candidate, p);
    SatisfiedCarriesNoCode(": " + JoinCodes(SatisfiedCodes(a.candidate, p)));
  }

  /** "No crew slots were supplied" is what a job is told exactly when no crew was supplied or the
      latest finish rules out even the earliest start of every crew. */
  lemma {:induction false} NoAttemptsIff(offers: seq<Offer>, p: Policy)
    ensures Gather(offers, p) == [] <==> forall o :: o in offers ==> TooLate(At(o.slot, o.earliest))
  {
    hide WindowStarts, Evaluate, FirstViolation, TooLate, Tries, Gather;
    forall o | o in offers
      ensures CrewTries(o.slot, p, o.earliest) == [] <==> TooLate(At(o.slot, o.earliest))
    {
      TriesNothing(o, p);
    }
    if forall o :: o in offers ==> TooLate(At(o.slot, o.earliest)) {
      forall a ensures a !in Gather(offers, p) {}
      NoMembers(Gather(offers, p));
    } else {
      var o :| o in offers && !TooLate(At(o.slot, o.earliest));
      var a := CrewTries(o.slot, p, o.earliest)[0];
      assert a in CrewTries(o.slot, p, o.earliest);
      assert a in Gather(offers, p);
    }
  }

  lemma TriesNothing(o: Offer, p: Policy)
    ensures CrewTries(o.slot, p, o.earliest) == [] <==> TooLate(At(o.slot, o.earliest))
  {
    hide WindowStarts, Evaluate, FirstViolation, TooLate;
    assert WindowStarts(o.earliest, SlotWindows(o.slot))[0] == o.earliest;
  }
}
