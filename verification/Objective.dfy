/** Scoring a candidate and ranking the queue. Exact reals stand for the source's floats. */
module Objective {
  import opened Orders
  import opened Constraints

  datatype Score = Score(sla: real, blast: real, travel: real, skill: real, appointment: real, vulnerable: real) {
    function Total(): real { sla + blast + skill + appointment + vulnerable - travel }
  }

  function Clamp(x: real): real { if x < 0.0 then 0.0 else if x > 1.0 then 1.0 else x }

  function Minutes(ticks: int): real { ticks as real / MINUTE as real }

  function SlaUrgency(remaining: Option<real>, atRisk: bool, jobMinutes: real): (u: real)
    ensures 0.0 <= u <= 1.0
  {
    if remaining.None? then (if atRisk then 1.0 else 0.0)
    else if remaining.value <= 0.0 then 1.0
    else
      var headroom := remaining.value / (if jobMinutes < 1.0 then 1.0 else jobMinutes);
      if headroom <= 1.0 then 1.0 else Clamp(1.0 / headroom)
  }

  function BlastFraction(affected: int, p: Policy): (f: real)
    ensures 0.0 <= f <= 1.0
  {
    Clamp(affected as real / (if p.networkThreshold < 1 then 1 else p.networkThreshold) as real)
  }

  function SkillOverlap(required: seq<string>, held: seq<string>): real {
    if required == [] then 1.0
    else
      assert required[0] in Members(required);
      |Members(required) * Members(held)| as real / |Members(required)| as real
  }

  /** One inside a stated customer window, zero outside, a half when none was stated. */
  function AppointmentFit(c: Candidate): real {
    if c.requirement.customerWindows == [] then 0.5
    else if WithinAny(c.start, c.end, c.requirement.customerWindows) then 1.0
    else 0.0
  }

  function ScoreCandidate(c: Candidate, p: Policy): Score {
    Score(
      p.weights.sla * SlaUrgency(c.context.slaRemaining, c.context.slaAtRisk, Minutes(c.requirement.duration)),
      p.weights.blast * BlastFraction(c.context.affected, p),
      p.weights.travel * Minutes(c.travel.ticks),
      p.weights.skill * SkillOverlap(c.requirement.skills, c.crew.skills),
      p.weights.appointment * AppointmentFit(c),
      if c.context.vulnerable then p.weights.vulnerable else 0.0)
  }

  /** How early a job is considered. Reads the job alone, never a crew. */
  function UrgencyRank(r: Requirement, ctx: JobContext, p: Policy): real {
    2.0 * SlaUrgency(ctx.slaRemaining, ctx.slaAtRisk, Minutes(r.duration)) + BlastFraction(ctx.affected, p) + r.priority
  }

  /** Urgency is full exactly when the remaining budget does not exceed the job; past that it is the
      job's share of the budget, so it falls as the budget grows and rises with the job's length. */
  lemma SlaUrgencyMeans(remaining: real, job: real, atRisk: bool)
    ensures SlaUrgency(None, true, job) == 1.0 && SlaUrgency(None, false, job) == 0.0
    ensures SlaUrgency(Some(remaining), atRisk, job) == 1.0 <==> remaining <= job || remaining <= 1.0
    ensures remaining > job && remaining > 1.0 ==>
      SlaUrgency(Some(remaining), atRisk, job) * remaining == if job < 1.0 then 1.0 else job
  {
    var length := if job < 1.0 then 1.0 else job;
    if remaining > 0.0 { Reciprocal(remaining, length); }
  }

  lemma Reciprocal(x: real, y: real)
    requires x > 0.0 && y > 0.0
    ensures x / y <= 1.0 <==> x <= y
    ensures (1.0 / (x / y)) * x == y
    ensures 0.0 < 1.0 / (x / y) && (x > y ==> 1.0 / (x / y) < 1.0)
  {
    Quotient(x, y);
    Quotient(1.0, x / y);
    var i := 1.0 / (x / y);
    assert i * x == (i * (x / y)) * y;
  }

  lemma Quotient(x: real, y: real)
    requires x > 0.0 && y > 0.0
    ensures x / y > 0.0 && (x / y) * y == x
    ensures x / y <= 1.0 <==> x <= y
    ensures x / y < 1.0 <==> x < y
  {
    var q := x / y;
    assert q * y == x;
    assert (q - 1.0) * y == x - y;
    ScaledSign(q - 1.0, y);
  }

  lemma ScaledSign(z: real, y: real)
    requires y > 0.0
    ensures (z * y > 0.0 <==> z > 0.0) && (z * y < 0.0 <==> z < 0.0)
  {
    if z > 0.0 { assert z * y > 0.0; }
    if z < 0.0 { assert z * y < 0.0; }
  }

  /** A minute is sixty seconds of a million ticks. */
  lemma MinutesMean(n: int)
    ensures Minutes(n * 60 * 1_000_000) == n as real
  {
  }

  /** The share of the network-scale threshold affected: full from the threshold on, none at or below
      nobody, and proportional between. */
  lemma BlastFractionMeans(affected: int, p: Policy)
    ensures var threshold := if p.networkThreshold < 1 then 1 else p.networkThreshold;
      && (BlastFraction(affected, p) == 1.0 <==> affected >= threshold)
      && (BlastFraction(affected, p) == 0.0 <==> affected <= 0)
      && (0 < affected < threshold ==> BlastFraction(affected, p) * threshold as real == affected as real)
  {
    RatioMeans(affected, if p.networkThreshold < 1 then 1 else p.networkThreshold);
  }

  lemma RatioMeans(n: int, m: int)
    requires m >= 1
    ensures n as real / m as real >= 1.0 <==> n >= m
    ensures n as real / m as real <= 0.0 <==> n <= 0
    ensures (n as real / m as real) * m as real == n as real
  {
    RealRatio(n as real, m as real);
  }

  lemma RealRatio(x: real, y: real)
    requires y > 0.0
    ensures x / y >= 1.0 <==> x >= y
    ensures x / y <= 0.0 <==> x <= 0.0
    ensures (x / y) * y == x
  {
    var q := x / y;
    assert q * y == x;
    ScaledSign(q, y);
    ScaledSign(q - 1.0, y);
    assert (q - 1.0) * y == x - y;
  }

  lemma BlastFractionRises(a: int, b: int, p: Policy)
    requires a <= b
    ensures BlastFraction(a, p) <= BlastFraction(b, p)
    ensures 0 <= a < b && a < p.networkThreshold ==> BlastFraction(a, p) < BlastFraction(b, p)
  {
    var threshold := (if p.networkThreshold < 1 then 1 else p.networkThreshold) as real;
    var x, y := a as real / threshold, b as real / threshold;
    assert x * threshold == a as real && y * threshold == b as real;
    assert (y - x) * threshold == b as real - a as real;
    ScaledSign(y - x, threshold);
    ScaledSign(x, threshold);
    ScaledSign(1.0 - x, threshold);
    assert (1.0 - x) * threshold == threshold - a as real;
  }

  /** A job's place in the queue rises with its SLA urgency, with the customers affected up to the network
      threshold, and with its priority, and reads nothing else. */
  lemma UrgencyRankRises(a: Requirement, x: JobContext, b: Requirement, y: JobContext, p: Policy)
    requires SlaUrgency(x.slaRemaining, x.slaAtRisk, Minutes(a.duration)) <= SlaUrgency(y.slaRemaining, y.slaAtRisk, Minutes(b.duration))
    requires x.affected <= y.affected && a.priority <= b.priority
    ensures UrgencyRank(a, x, p) <= UrgencyRank(b, y, p)
    ensures
      || SlaUrgency(x.slaRemaining, x.slaAtRisk, Minutes(a.duration)) < SlaUrgency(y.slaRemaining, y.slaAtRisk, Minutes(b.duration))
      || (0 <= x.affected < y.affected && x.affected < p.networkThreshold)
      || a.priority < b.priority ==>
        UrgencyRank(a, x, p) < UrgencyRank(b, y, p)
  {
    hide SlaUrgency, BlastFraction, Minutes;
    BlastFractionRises(x.affected, y.affected, p);
  }

  /** The overlap is the share of the distinct required skills that are held, and full when none are
      required. */
  lemma SkillOverlapMeans(required: seq<string>, held: seq<string>)
    ensures SkillOverlap(required, held) == 1.0 <==> Members(required) <= Members(held)
    ensures required != [] ==>
      SkillOverlap(required, held) * |Members(required)| as real == |set s | s in required && s in held| as real
  {
    var both := Members(required) * Members(held);
    assert both == set s | s in required && s in held;
    if required != [] {
      assert required[0] in Members(required);
      var n, m := |both| as real, |Members(required)| as real;
      assert (n / m) * m == n;
      assert n / m == 1.0 <==> n == m;
      PartIsWhole(both, Members(required));
    }
  }

  lemma PartIsWhole<T>(part: set<T>, whole: set<T>)
    requires part <= whole
    ensures |part| == |whole| <==> part == whole
  {
    assert whole == part + (whole - part);
    assert |whole| == |part| + |whole - part|;
  }

  lemma SkillOverlapInRange(required: seq<string>, held: seq<string>)
    ensures 0.0 <= SkillOverlap(required, held) <= 1.0
  {
    var both := Members(required) * Members(held);
    if required != [] {
      assert required[0] in Members(required);
      assert Members(required) == both + (Members(required) - both);
      assert |both| <= |Members(required)|;
      Quotients(|both|, |Members(required)|);
    }
  }

  lemma Quotients(n: nat, m: nat)
    requires n <= m && m > 0
    ensures 0.0 <= n as real / m as real <= 1.0
  {
  }

  /** The fit tells a stated window that holds the job from one that does not, and both from none. */
  lemma AppointmentFitMeans(c: Candidate)
    ensures AppointmentFit(c) == 0.5 <==> c.requirement.customerWindows == []
    ensures AppointmentFit(c) == 1.0 <==> HasRoom(c.requirement.customerWindows, c.start, c.end)
    ensures 0.0 <= AppointmentFit(c) <= 1.0
  {
    HasRoomIff(c.requirement.customerWindows, c.start, c.end);
  }

  /** Setting one weight to zero moves exactly one term, and moves it to zero. */
  lemma OneWeightOneTerm(c: Candidate, p: Policy)
    ensures var s := ScoreCandidate(c, p);
      && ScoreCandidate(c, p.(weights := p.weights.(sla := 0.0))) == s.(sla := 0.0)
      && ScoreCandidate(c, p.(weights := p.weights.(blast := 0.0))) == s.(blast := 0.0)
      && ScoreCandidate(c, p.(weights := p.weights.(travel := 0.0))) == s.(travel := 0.0)
      && ScoreCandidate(c, p.(weights := p.weights.(skill := 0.0))) == s.(skill := 0.0)
      && ScoreCandidate(c, p.(weights := p.weights.(appointment := 0.0))) == s.(appointment := 0.0)
      && ScoreCandidate(c, p.(weights := p.weights.(vulnerable := 0.0))) == s.(vulnerable := 0.0)
  {
    hide ScoreCandidate;
    var w := p.weights;
    TermsFollowWeights(c, p, p.(weights := w.(sla := 0.0)));
    TermsFollowWeights(c, p, p.(weights := w.(blast := 0.0)));
    TermsFollowWeights(c, p, p.(weights := w.(travel := 0.0)));
    TermsFollowWeights(c, p, p.(weights := w.(skill := 0.0)));
    TermsFollowWeights(c, p, p.(weights := w.(appointment := 0.0)));
    TermsFollowWeights(c, p, p.(weights := w.(vulnerable := 0.0)));
  }

  lemma TermsFollowWeights(c: Candidate, p: Policy, q: Policy)
    requires p.networkThreshold == q.networkThreshold
    ensures var s, t, v, w := ScoreCandidate(c, p), ScoreCandidate(c, q), p.weights, q.weights;
      && (w.sla == v.sla ==> t.sla == s.sla) && (w.sla == 0.0 ==> t.sla == 0.0)
      && (w.blast == v.blast ==> t.blast == s.blast) && (w.blast == 0.0 ==> t.blast == 0.0)
      && (w.travel == v.travel ==> t.travel == s.travel) && (w.travel == 0.0 ==> t.travel == 0.0)
      && (w.skill == v.skill ==> t.skill == s.skill) && (w.skill == 0.0 ==> t.skill == 0.0)
      && (w.appointment == v.appointment ==> t.appointment == s.appointment) && (w.appointment == 0.0 ==> t.appointment == 0.0)
      && (w.vulnerable == v.vulnerable ==> t.vulnerable == s.vulnerable) && (w.vulnerable == 0.0 ==> t.vulnerable == 0.0)
  {
    SameBlast(c.context.affected, p, q);
    hide SlaUrgency, SkillOverlap, AppointmentFit, Minutes, BlastFraction;
  }

  lemma SameBlast(affected: int, p: Policy, q: Policy)
    requires p.networkThreshold == q.networkThreshold
    ensures BlastFraction(affected, p) == BlastFraction(affected, q)
  {
  }

  lemma Weighed(w: real, x: real)
    requires w > 0.0 && x <= 1.0
    ensures w * x <= w && (w * x == w <==> x == 1.0)
  {
    ScaledSign(1.0 - x, w);
    assert (1.0 - x) * w == w - w * x;
  }

  lemma TravelWeighed(w: real, ticks: nat)
    requires w > 0.0
    ensures w * Minutes(ticks) >= 0.0 && (w * Minutes(ticks) == 0.0 <==> ticks == 0)
  {
    ScaledSign(Minutes(ticks), w);
  }

  /** No score exceeds the sum of its weights, and only one job in one place reaches it: one with no SLA
      budget to spare, of network scale, for a vulnerable customer, inside a stated window, every skill
      held, no drive. Every one of the six terms counts. */
  lemma PerfectScoreIff(c: Candidate, p: Policy)
    requires p.weights.sla > 0.0 && p.weights.blast > 0.0 && p.weights.travel > 0.0
    requires p.weights.skill > 0.0 && p.weights.appointment > 0.0 && p.weights.vulnerable > 0.0
    ensures var most := p.weights.sla + p.weights.blast + p.weights.skill + p.weights.appointment + p.weights.vulnerable;
      var total := ScoreCandidate(c, p).Total();
      && total <= most
      && (total == most <==>
           && SlaUrgency(c.context.slaRemaining, c.context.slaAtRisk, Minutes(c.requirement.duration)) == 1.0
           && BlastFraction(c.context.affected, p) == 1.0 && SkillOverlap(c.requirement.skills, c.crew.skills) == 1.0
           && AppointmentFit(c) == 1.0 && c.context.vulnerable && c.travel.ticks == 0)
  {
    var s, w := ScoreCandidate(c, p), p.weights;
    SlaTerm(c, p);
    BlastTerm(c, p);
    SkillTerm(c, p);
    AppointmentTerm(c, p);
    TravelTerm(c, p);
    assert s.vulnerable == if c.context.vulnerable then w.vulnerable else 0.0;
    hide ScoreCandidate, SlaUrgency, SkillOverlap, AppointmentFit, BlastFraction, Minutes;
  }

  lemma SlaTerm(c: Candidate, p: Policy)
    requires p.weights.sla > 0.0
    ensures ScoreCandidate(c, p).sla <= p.weights.sla
    ensures ScoreCandidate(c, p).sla == p.weights.sla <==>
      SlaUrgency(c.context.slaRemaining, c.context.slaAtRisk, Minutes(c.requirement.duration)) == 1.0
  {
    hide SlaUrgency, SkillOverlap, AppointmentFit, BlastFraction, Minutes;
    Weighed(p.weights.sla, SlaUrgency(c.context.slaRemaining, c.context.slaAtRisk, Minutes(c.requirement.duration)));
  }

  lemma BlastTerm(c: Candidate, p: Policy)
    requires p.weights.blast > 0.0
    ensures ScoreCandidate(c, p).blast <= p.weights.blast
    ensures ScoreCandidate(c, p).blast == p.weights.blast <==> BlastFraction(c.context.affected, p) == 1.0
  {
    hide SlaUrgency, SkillOverlap, AppointmentFit, BlastFraction, Minutes;
    Weighed(p.weights.blast, BlastFraction(c.context.affected, p));
  }

  lemma SkillTerm(c: Candidate, p: Policy)
    requires p.weights.skill > 0.0
    ensures ScoreCandidate(c, p).skill <= p.weights.skill
    ensures ScoreCandidate(c, p).skill == p.weights.skill <==> SkillOverlap(c.requirement.skills, c.crew.skills) == 1.0
  {
    hide SlaUrgency, SkillOverlap, AppointmentFit, BlastFraction, Minutes;
    SkillOverlapInRange(c.requirement.skills, c.crew.skills);
    Weighed(p.weights.skill, SkillOverlap(c.requirement.skills, c.crew.skills));
  }

  lemma AppointmentTerm(c: Candidate, p: Policy)
    requires p.weights.appointment > 0.0
    ensures ScoreCandidate(c, p).appointment <= p.weights.appointment
    ensures ScoreCandidate(c, p).appointment == p.weights.appointment <==> AppointmentFit(c) == 1.0
  {
    hide SlaUrgency, SkillOverlap, AppointmentFit, BlastFraction, Minutes;
    AppointmentFitMeans(c);
    Weighed(p.weights.appointment, AppointmentFit(c));
  }

  lemma TravelTerm(c: Candidate, p: Policy)
    requires p.weights.travel > 0.0
    ensures ScoreCandidate(c, p).travel >= 0.0
    ensures ScoreCandidate(c, p).travel == 0.0 <==> c.travel.ticks == 0
  {
    hide SlaUrgency, SkillOverlap, AppointmentFit, BlastFraction, Minutes;
    TravelWeighed(p.weights.travel, c.travel.ticks);
  }
}
