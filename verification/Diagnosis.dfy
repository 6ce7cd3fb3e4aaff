/** From findings to a diagnosis: domain weights, hypotheses, and the concluded confidence. Exact reals
    stand for floats, rounded to four decimals where the source rounds them. */
module Diagnosis {
  import opened Orders
  import opened Strings

  /** In the alphabetical order of the source's values, which is how ties are broken. */
  datatype Domain =
    | Cpe | CustomerEnvironment | Distribution | Drop | Feeder | HeadendOrCo | InsideHomeWiring | Multiple
    | NoFaultFound | NodeOrOlt | Power | Provisioning | ServicePlatform | TapOrOdp | Unknown

  const DOMAINS: seq<Domain> := [
    Cpe, CustomerEnvironment, Distribution, Drop, Feeder, HeadendOrCo, InsideHomeWiring, Multiple,
    NoFaultFound, NodeOrOlt, Power, Provisioning, ServicePlatform, TapOrOdp, Unknown]

  function Alphabetical(d: Domain): nat {
    match d
    case Cpe => 0 case CustomerEnvironment => 1 case Distribution => 2 case Drop => 3 case Feeder => 4
    case HeadendOrCo => 5 case InsideHomeWiring => 6 case Multiple => 7 case NoFaultFound => 8
    case NodeOrOlt => 9 case Power => 10 case Provisioning => 11 case ServicePlatform => 12
    case TapOrOdp => 13 case Unknown => 14
  }

  /** How far out each domain sits. */
  function Reach(d: Domain): nat {
    match d
    case CustomerEnvironment => 0 case InsideHomeWiring => 1 case Cpe => 2 case Provisioning => 3
    case ServicePlatform => 4 case Drop => 5 case TapOrOdp => 6 case Distribution => 7 case Feeder => 8
    case NodeOrOlt => 9 case HeadendOrCo => 10 case Power => 11
    case Multiple => 0 case NoFaultFound => 0 case Unknown => 0
  }

  datatype Finding = Finding(
    detector: string, score: real, confidence: real, domain: Option<Domain>, evidence: set<string>)

  type Weights = map<Domain, real>

  function WeightOf(w: Weights, d: Domain): real { if d in w then w[d] else 0.0 }

  // -- weights -----------------------------------------------------------------------------------

  function DomainWeights(findings: seq<Finding>): Weights {
    if findings == [] then map[]
    else WithFinding(DomainWeights(findings[..|findings| - 1]), findings[|findings| - 1])
  }

  function Strength(f: Finding): real { f.score * f.confidence }

  function WithFinding(w: Weights, f: Finding): Weights {
    if f.domain.None? then w else w[f.domain.value := WeightOf(w, f.domain.value) + Strength(f)]
  }

  lemma WeightsStep(findings: seq<Finding>, i: nat)
    requires i < |findings|
    ensures DomainWeights(findings[..i + 1]) == WithFinding(DomainWeights(findings[..i]), findings[i])
  {
    var upTo := findings[..i + 1];
    assert upTo[..|upTo| - 1] == findings[..i] && upTo[|upTo| - 1] == findings[i];
  }

  method DomainWeightsLoop(findings: seq<Finding>) returns (weights: Weights)
    ensures weights == DomainWeights(findings)
  {
    weights := map[];
    var i := 0;
    assert findings[..0] == [];
    while i < |findings|
      invariant 0 <= i <= |findings| && weights == DomainWeights(findings[..i])
    {
      WeightsStep(findings, i);
      var f := findings[i];
      if f.domain.Some? {
        weights := weights[f.domain.value := WeightOf(weights, f.domain.value) + Strength(f)];
      }
      i := i + 1;
    }
    assert findings[..i] == findings;
  }

  // -- how heavy a suspicion is ------------------------------------------------------------------

  lemma WithFindingAdds(w: Weights, f: Finding, d: Domain)
    ensures WeightOf(WithFinding(w, f), d) == WeightOf(w, d) + WeightOf(WithFinding(map[], f), d)
  {
    hide Strength;
  }

  /** Every finding adds its weight, to its own domain, whatever came before it. */
  lemma {:induction false} WeightsAdd(a: seq<Finding>, b: seq<Finding>, d: Domain)
    ensures WeightOf(DomainWeights(a + b), d) == WeightOf(DomainWeights(a), d) + WeightOf(DomainWeights(b), d)
    ensures d in DomainWeights(a + b) <==> d in DomainWeights(a) || d in DomainWeights(b)
  {
    hide WithFinding, WeightOf;
    if b == [] {
      assert a + b == a;
      NothingWeighs(d);
    } else {
      var n := |b| - 1;
      assert (a + b)[..|a + b| - 1] == a + b[..n] && (a + b)[|a + b| - 1] == b[n];
      WeightsAdd(a, b[..n], d);
      WithFindingAdds(DomainWeights(a + b[..n]), b[n], d);
      WithFindingAdds(DomainWeights(b[..n]), b[n], d);
      WithFindingHolds(DomainWeights(a + b[..n]), b[n], d);
      WithFindingHolds(DomainWeights(b[..n]), b[n], d);
    }
  }

  lemma WithFindingHolds(w: Weights, f: Finding, d: Domain)
    ensures d in WithFinding(w, f) <==> d in w || f.domain == Some(d)
  {
  }

  lemma NothingWeighs(d: Domain)
    ensures DomainWeights([]) == map[] && WeightOf(DomainWeights([]), d) == 0.0
  {
  }

  /** One finding weighs its score times its confidence in the domain it suspects, and nothing elsewhere. */
  lemma OneFindingWeighs(f: Finding, d: Domain)
    ensures WeightOf(DomainWeights([f]), d) == if f.domain == Some(d) then f.score * f.confidence else 0.0
    ensures d in DomainWeights([f]) <==> f.domain == Some(d)
  {
    assert [f][..0] == [] && DomainWeights([]) == map[];
    assert DomainWeights([f]) == WithFinding(map[], f);
    assert Strength(f) == f.score * f.confidence;
    hide Strength;
  }

  /** So the order of the findings is no matter. */
  lemma {:induction false} PermutedFindingsWeighTheSame(a: seq<Finding>, b: seq<Finding>, d: Domain)
    requires multiset(a) == multiset(b)
    ensures WeightOf(DomainWeights(a), d) == WeightOf(DomainWeights(b), d)
    ensures d in DomainWeights(a) <==> d in DomainWeights(b)
  {
    hide DomainWeights, WeightOf;
    SameMembers(a, b);
    if a == [] {
      assert b == [];
    } else {
      var k := RestAlike(a, b);
      var rest := b[..k] + b[k + 1..];
      PermutedFindingsWeighTheSame(a[1..], rest, d);
      assert a == [a[0]] + a[1..] && b == b[..k] + ([b[k]] + b[k + 1..]);
      WeightsAdd([a[0]], a[1..], d);
      WeightsAdd(b[..k], [b[k]] + b[k + 1..], d);
      WeightsAdd([b[k]], b[k + 1..], d);
      WeightsAdd(b[..k], b[k + 1..], d);
    }
  }

  lemma SameWeights(a: seq<Finding>, b: seq<Finding>)
    requires multiset(a) == multiset(b)
    ensures DomainWeights(a) == DomainWeights(b)
  {
    hide DomainWeights;
    forall d: Domain { PermutedFindingsWeighTheSame(a, b, d); }
  }

  lemma {:induction false} WeightsAreSuspicions(findings: seq<Finding>)
    ensures forall d :: d in DomainWeights(findings) <==> exists f :: f in findings && f.domain == Some(d)
    ensures (forall f :: f in findings ==> f.score >= 0.0 && f.confidence >= 0.0) ==>
      forall d :: d in DomainWeights(findings) ==> DomainWeights(findings)[d] >= 0.0
  {
    WeightsHaveSuspects(findings);
    if forall f :: f in findings ==> f.score >= 0.0 && f.confidence >= 0.0 { WeightsAreNonNegative(findings); }
  }

  lemma {:induction false} WeightsHaveSuspects(findings: seq<Finding>)
    ensures forall d :: d in DomainWeights(findings) <==> exists f :: f in findings && f.domain == Some(d)
  {
    hide Strength, WeightOf;
    if findings != [] {
      var n := |findings| - 1;
      assert findings == findings[..n] + [findings[n]];
      WeightsHaveSuspects(findings[..n]);
    }
  }

  lemma {:induction false} WeightsAreNonNegative(findings: seq<Finding>)
    requires forall f :: f in findings ==> f.score >= 0.0 && f.confidence >= 0.0
    ensures forall d :: d in DomainWeights(findings) ==> DomainWeights(findings)[d] >= 0.0
  {
    hide Strength;
    if findings != [] {
      var n := |findings| - 1;
      assert findings == findings[..n] + [findings[n]];
      WeightsAreNonNegative(findings[..n]);
      StrengthIsNonNegative(findings[n]);
    }
  }

  lemma StrengthIsNonNegative(f: Finding)
    requires f.score >= 0.0 && f.confidence >= 0.0
    ensures Strength(f) >= 0.0
  {
    NonNegativeProduct(f.score, f.confidence);
  }

  lemma NonNegativeProduct(x: real, y: real)
    requires x >= 0.0 && y >= 0.0
    ensures x * y >= 0.0
  {
  }

  function PresentIn(ds: seq<Domain>, w: Weights): (r: seq<Domain>)
    ensures forall d :: d in r <==> d in ds && d in w
  {
    if ds == [] then []
    else
      assert ds == [ds[0]] + ds[1..];
      (if ds[0] in w then [ds[0]] else []) + PresentIn(ds[1..], w)
  }

  function SumOver(ds: seq<Domain>, w: Weights): real {
    if ds == [] then 0.0 else WeightOf(w, ds[0]) + SumOver(ds[1..], w)
  }

  /** `sum(weights.values())`. */
  function Total(w: Weights): real { SumOver(PresentIn(DOMAINS, w), w) }

  /** `sum(...) or 1.0`. */
  function Divisor(w: Weights): real { if Total(w) == 0.0 then 1.0 else Total(w) }

  predicate HeavierFirst(w: Weights, a: Domain, b: Domain) {
    WeightOf(w, a) > WeightOf(w, b) || (WeightOf(w, a) == WeightOf(w, b) && Alphabetical(a) <= Alphabetical(b))
  }

  function Ranked(w: Weights): seq<Domain> {
    Sort(PresentIn(DOMAINS, w), (a, b) => HeavierFirst(w, a, b))
  }

  lemma EveryDomainIsListed(d: Domain)
    ensures d in DOMAINS
  {
    assert DOMAINS[Alphabetical(d)] == d;
  }

  lemma RankedHoldsKeys(w: Weights)
    ensures forall d :: d in Ranked(w) <==> d in w
    ensures multiset(Ranked(w)) == multiset(PresentIn(DOMAINS, w))
  {
    SameMembers(PresentIn(DOMAINS, w), Ranked(w));
    forall d: Domain { EveryDomainIsListed(d); }
  }

  // -- hypotheses --------------------------------------------------------------------------------

  const CEILING := 0.95

  datatype Hypothesis = Hypothesis(domain: Domain, prior: real, posterior: real, rejected: bool, reason: string)

  /** The record's own validators. */
  predicate ValidHypothesis(h: Hypothesis) {
    0.0 <= h.prior <= 1.0 && 0.0 <= h.posterior <= 1.0 && (h.rejected ==> Written(h.reason))
  }

  function MinR(a: real, b: real): real { if a < b then a else b }

  function Sources(findings: seq<Finding>, d: Domain): set<string> {
    set f, ref | f in findings && f.domain == Some(d) && ref in f.evidence :: ref
  }

  function Detectors(findings: seq<Finding>, d: Domain): set<string> {
    set f | f in findings && f.domain == Some(d) :: f.detector
  }

  /** Distinct evidence references, or detectors where no finding carries any. */
  function Counted(findings: seq<Finding>, d: Domain): nat {
    if Sources(findings, d) != {} then |Sources(findings, d)| else |Detectors(findings, d)|
  }

  function Corroboration(findings: seq<Finding>, d: Domain, minSources: int): real
    requires minSources >= 1
  {
    MinR(1.0, Counted(findings, d) as real / minSources as real)
  }

  function Share(w: Weights, d: Domain): real { WeightOf(w, d) / Divisor(w) }

  function Times(x: real, y: real): real { x * y }

  function Capped(share: real, corroboration: real): real { MinR(CEILING, Times(share, corroboration)) }

  function Posterior(findings: seq<Finding>, d: Domain, minSources: int): real
    requires minSources >= 1
  {
    Capped(Share(DomainWeights(findings), d), Corroboration(findings, d, minSources))
  }

  /** `round(x, 4)` on exact values: the nearest ten-thousandth, ties to the even one. */
  function Steps(x: real): int {
    var y := x * 10000.0;
    var below := y.Floor;
    var rest := y - below as real;
    if rest < 0.5 || (rest == 0.5 && below % 2 == 0) then below else below + 1
  }

  function Rounded(x: real): real { Steps(x) as real / 10000.0 }

  /** Half a step below zero. */
  const SLACK := 0.00005

  lemma RoundsUpToZeroIff(x: real)
    ensures Steps(x) >= 0 <==> x >= -SLACK
    ensures x <= 1.0 ==> Steps(x) <= 10000
  {
    var y := x * 10000.0;
    assert y >= -0.5 <==> x >= -SLACK;
    assert x <= 1.0 ==> y <= 10000.0;
    if y < 0.0 { assert y.Floor <= -1; }
  }

  lemma StepsAreOrdered(x: real, y: real)
    requires x <= y
    ensures Steps(x) <= Steps(y)
  {
    var a, b := x * 10000.0, y * 10000.0;
    assert a <= b && a.Floor <= b.Floor;
  }

  /** Rounding moves a number by at most half a step, keeps order, and moves nothing twice. */
  lemma RoundedIsClose(x: real, y: real)
    ensures x - SLACK <= Rounded(x) <= x + SLACK
    ensures x <= y ==> Rounded(x) <= Rounded(y)
    ensures Rounded(Rounded(x)) == Rounded(x)
  {
    if x <= y { StepsAreOrdered(x, y); }
    WholeStepsStay(Steps(x));
    assert Steps(x) as real - 0.5 <= x * 10000.0 <= Steps(x) as real + 0.5;
    hide Steps;
  }

  lemma WholeStepsStay(n: int)
    ensures Steps(n as real / 10000.0) == n
  {
    assert n as real / 10000.0 * 10000.0 == n as real;
  }

  lemma CeilingStays()
    ensures Rounded(CEILING) == CEILING && Rounded(0.0) == 0.0
  {
    WholeStepsStay(9500);
    WholeStepsStay(0);
  }

  lemma RoundedInRange(x: real)
    ensures x <= 1.0 ==> (0.0 <= Rounded(x) <= 1.0 <==> x >= -SLACK)
  {
    hide Steps;
    RoundsUpToZeroIff(x);
  }

  /** The record for one domain, its two numbers rounded. */
  function HypothesisFor(findings: seq<Finding>, d: Domain, minSources: int, rejected: map<Domain, string>): Hypothesis
    requires minSources >= 1 && |DomainWeights(findings)| > 0
  {
    Hypothesis(d, Rounded(1.0 / |DomainWeights(findings)| as real), Rounded(Posterior(findings, d, minSources)),
      d in rejected, if d in rejected then rejected[d] else "")
  }

  /** One hypothesis per suspected domain, in rank order, or none when a record refuses to be built. */
  method BuildHypotheses(findings: seq<Finding>, minSources: int, rejected: map<Domain, string>)
    returns (built: Option<seq<Hypothesis>>)
    requires minSources >= 1
    ensures built.Some? <==> forall d :: d in DomainWeights(findings) ==>
      |DomainWeights(findings)| > 0 && ValidHypothesis(HypothesisFor(findings, d, minSources, rejected))
    ensures built.Some? ==> IsHypothesisSet(findings, minSources, rejected, built.value)
  {
    hide Ranked, DomainWeights, HypothesisFor, ValidHypothesis, BuiltFrom, IsHypothesisSet;
    var weights := DomainWeightsLoop(findings);
    var ranked := Ranked(weights);
    if |weights| == 0 {
      NoneRanked(weights);
      NoneBuilt(findings, minSources, rejected);
      return Some([]);
    }
    var hypotheses: seq<Hypothesis> := [];
    var i := 0;
    NothingBuilt(findings, minSources, rejected, ranked);
    while i < |ranked|
      invariant 0 <= i <= |ranked| && |hypotheses| == i
      invariant BuiltFrom(findings, minSources, rejected, ranked, hypotheses)
    {
      var h := HypothesisFor(findings, ranked[i], minSources, rejected);
      RankedIsSuspected(weights, i);
      if !ValidHypothesis(h) { return None; }
      OneMoreBuilt(findings, minSources, rejected, ranked, hypotheses);
      hypotheses := hypotheses + [h];
      i := i + 1;
    }
    AllBuilt(findings, minSources, rejected, hypotheses);
    built := Some(hypotheses);
  }

  /** The hypotheses built so far are the valid ones of the first domains in rank order. */
  ghost predicate BuiltFrom(findings: seq<Finding>, minSources: int, rejected: map<Domain, string>, ranked: seq<Domain>, hs: seq<Hypothesis>)
    requires minSources >= 1 && |DomainWeights(findings)| > 0
  {
    && |hs| <= |ranked|
    && forall k :: 0 <= k < |hs| ==> hs[k] == HypothesisFor(findings, ranked[k], minSources, rejected) && ValidHypothesis(hs[k])
  }

  lemma NothingBuilt(findings: seq<Finding>, minSources: int, rejected: map<Domain, string>, ranked: seq<Domain>)
    requires minSources >= 1 && |DomainWeights(findings)| > 0
    ensures BuiltFrom(findings, minSources, rejected, ranked, [])
  {
  }

  lemma OneMoreBuilt(findings: seq<Finding>, minSources: int, rejected: map<Domain, string>, ranked: seq<Domain>, hs: seq<Hypothesis>)
    requires minSources >= 1 && |DomainWeights(findings)| > 0 && |hs| < |ranked|
    requires BuiltFrom(findings, minSources, rejected, ranked, hs)
    requires ValidHypothesis(HypothesisFor(findings, ranked[|hs|], minSources, rejected))
    ensures BuiltFrom(findings, minSources, rejected, ranked, hs + [HypothesisFor(findings, ranked[|hs|], minSources, rejected)])
  {
    hide DomainWeights, HypothesisFor, ValidHypothesis;
  }

  lemma RankedIsSuspected(w: Weights, i: nat)
    requires i < |Ranked(w)|
    ensures Ranked(w)[i] in w
  {
    hide Ranked;
    RankedHoldsKeys(w);
  }

  lemma AllBuilt(findings: seq<Finding>, minSources: int, rejected: map<Domain, string>, hs: seq<Hypothesis>)
    requires minSources >= 1 && |DomainWeights(findings)| > 0 && |hs| == |Ranked(DomainWeights(findings))|
    requires BuiltFrom(findings, minSources, rejected, Ranked(DomainWeights(findings)), hs)
    ensures IsHypothesisSet(findings, minSources, rejected, hs)
    ensures forall d :: d in DomainWeights(findings) ==> ValidHypothesis(HypothesisFor(findings, d, minSources, rejected))
  {
    hide Ranked, DomainWeights, HypothesisFor, ValidHypothesis;
    var ranked := Ranked(DomainWeights(findings));
    RankedHoldsKeys(DomainWeights(findings));
    forall d | d in DomainWeights(findings) ensures ValidHypothesis(HypothesisFor(findings, d, minSources, rejected)) {
      assert d in ranked;
      var k :| 0 <= k < |ranked| && ranked[k] == d;
      assert ValidHypothesis(hs[k]);
    }
  }

  lemma NoneBuilt(findings: seq<Finding>, minSources: int, rejected: map<Domain, string>)
    requires minSources >= 1 && Ranked(DomainWeights(findings)) == []
    ensures IsHypothesisSet(findings, minSources, rejected, [])
  {
    hide Ranked, DomainWeights;
  }

  lemma NoneRanked(w: Weights)
    requires |w| == 0
    ensures Ranked(w) == [] && forall d :: d !in w
  {
    assert w.Keys == {};
    RankedHoldsKeys(w);
    NoMembers(Ranked(w));
  }

  /** The hypotheses of a diagnosis: rank order, one per suspected domain. */
  ghost predicate IsHypothesisSet(findings: seq<Finding>, minSources: int, rejected: map<Domain, string>, hs: seq<Hypothesis>)
    requires minSources >= 1
  {
    var ranked := Ranked(DomainWeights(findings));
    |hs| == |ranked| && forall k :: 0 <= k < |hs| ==>
      && |DomainWeights(findings)| > 0
      && hs[k] == HypothesisFor(findings, ranked[k], minSources, rejected) && ValidHypothesis(hs[k])
  }

  /** The hypotheses are in rank order, heaviest first and alphabetically among equals. */
  lemma SetsAreRanked(findings: seq<Finding>, minSources: int, rejected: map<Domain, string>, hs: seq<Hypothesis>)
    requires minSources >= 1 && IsHypothesisSet(findings, minSources, rejected, hs)
    ensures var w := DomainWeights(findings);
      forall i, j :: 0 <= i < j < |hs| ==>
        || WeightOf(w, hs[i].domain) > WeightOf(w, hs[j].domain)
        || (WeightOf(w, hs[i].domain) == WeightOf(w, hs[j].domain) && Alphabetical(hs[i].domain) <= Alphabetical(hs[j].domain))
  {
    hide DomainWeights, Posterior, Rounded, ValidHypothesis, WeightOf, Alphabetical, Ranked;
    var ranked := Ranked(DomainWeights(findings));
    RankedIsSorted(DomainWeights(findings));
    forall i, j | 0 <= i < j < |hs| ensures HeavierFirst(DomainWeights(findings), hs[i].domain, hs[j].domain) {
      assert hs[i].domain == ranked[i] && hs[j].domain == ranked[j];
    }
  }

  /** Each hypothesis carries the same rounded prior, its own posterior, and the reason it was ruled out for. */
  lemma HypothesesCarry(findings: seq<Finding>, minSources: int, rejected: map<Domain, string>, hs: seq<Hypothesis>, h: Hypothesis)
    requires minSources >= 1 && IsHypothesisSet(findings, minSources, rejected, hs) && h in hs
    ensures |DomainWeights(findings)| > 0
    ensures h.prior == Rounded(1.0 / |DomainWeights(findings)| as real)
    ensures h.posterior == Rounded(Posterior(findings, h.domain, minSources))
    ensures h.domain in rejected ==> h.rejected && h.reason == rejected[h.domain]
    ensures h.domain !in rejected ==> !h.rejected
  {
    hide DomainWeights, Posterior, Rounded, ValidHypothesis, Ranked;
    var k :| 0 <= k < |hs| && hs[k] == h;
  }

  lemma RankedIsSorted(w: Weights)
    ensures forall i, j :: 0 <= i < j < |Ranked(w)| ==> HeavierFirst(w, Ranked(w)[i], Ranked(w)[j])
  {
    hide WeightOf, Alphabetical, Sort, PresentIn;
    var leq := (a: Domain, b: Domain) => HeavierFirst(w, a, b);
    forall a: Domain, b: Domain ensures HeavierFirst(w, a, b) || HeavierFirst(w, b, a) {}
    forall a: Domain, b: Domain, c: Domain | HeavierFirst(w, a, b) && HeavierFirst(w, b, c) ensures HeavierFirst(w, a, c) {}
    SortSorts(PresentIn(DOMAINS, w), leq);
    assert Ranked(w) == Sort(PresentIn(DOMAINS, w), leq);
    forall i, j | 0 <= i < j < |Ranked(w)| ensures HeavierFirst(w, Ranked(w)[i], Ranked(w)[j]) {
      assert leq(Ranked(w)[i], Ranked(w)[j]);
    }
  }

  /** A source that agrees with itself is one source: however many findings about a domain cite it, and it
      alone, they count once. With nothing cited the distinct detectors count instead. */
  lemma OneSourceCountsOnce(findings: seq<Finding>, d: Domain, ref: string)
    requires exists f :: f in findings && f.domain == Some(d) && ref in f.evidence
    requires forall f :: f in findings && f.domain == Some(d) ==> f.evidence <= {ref}
    ensures Counted(findings, d) == 1
  {
    assert ref in Sources(findings, d);
    assert Sources(findings, d) == {ref};
  }

  lemma UncitedDetectorsCount(findings: seq<Finding>, d: Domain)
    requires forall f :: f in findings && f.domain == Some(d) ==> f.evidence == {}
    ensures Counted(findings, d) == |set f | f in findings && f.domain == Some(d) :: f.detector|
  {
    assert Sources(findings, d) == {};
  }

  /** Distinct references each count, and citing one again adds nothing. */
  lemma SourcesCount(findings: seq<Finding>, f: Finding, d: Domain)
    requires f.domain == Some(d) && Sources(findings, d) != {}
    ensures Counted(findings + [f], d) == Counted(findings, d) + |f.evidence - Sources(findings, d)|
  {
    var before, after := Sources(findings, d), Sources(findings + [f], d);
    assert forall g :: g in findings + [f] <==> g in findings || g == f;
    assert after == before + (f.evidence - before);
    assert before <= after && after != {};
  }

  // -- when the records can be built -------------------------------------------------------------

  lemma CorroborationIsPositive(findings: seq<Finding>, d: Domain, minSources: int)
    requires minSources >= 1 && d in DomainWeights(findings)
    ensures 0.0 < Corroboration(findings, d, minSources) <= 1.0
  {
    hide DomainWeights;
    WeightsAreSuspicions(findings);
    var f :| f in findings && f.domain == Some(d);
    assert f.detector in Detectors(findings, d);
    if Sources(findings, d) == {} { assert Counted(findings, d) >= 1; }
    PositiveQuotient(Counted(findings, d) as real, minSources as real);
  }

  lemma PositiveQuotient(x: real, y: real)
    requires x > 0.0 && y > 0.0
    ensures x / y > 0.0
  {
  }

  /** No two domains pull in opposite directions. */
  ghost predicate OneSign(w: Weights) {
    (forall d :: d in w ==> w[d] >= 0.0) || (forall d :: d in w ==> w[d] <= 0.0)
  }

  lemma {:induction false} SumSigns(ds: seq<Domain>, w: Weights)
    ensures (forall d :: d in ds ==> WeightOf(w, d) >= 0.0) ==>
      SumOver(ds, w) >= 0.0 && forall d :: d in ds ==> WeightOf(w, d) <= SumOver(ds, w)
    ensures (forall d :: d in ds ==> WeightOf(w, d) <= 0.0) ==>
      SumOver(ds, w) <= 0.0 && forall d :: d in ds ==> WeightOf(w, d) >= SumOver(ds, w)
  {
    if ds != [] {
      assert ds == [ds[0]] + ds[1..];
      SumSigns(ds[1..], w);
    }
  }

  lemma PresentAreKeys(w: Weights)
    ensures forall d :: d in PresentIn(DOMAINS, w) <==> d in w
  {
    forall d: Domain { EveryDomainIsListed(d); }
  }

  lemma SharesAreNonNegativeIff(w: Weights)
    ensures (forall d :: d in w ==> Share(w, d) >= 0.0) <==> OneSign(w)
  {
    var ds := PresentIn(DOMAINS, w);
    PresentAreKeys(w);
    SumSigns(ds, w);
    var total := Total(w);
    forall d | d in w
      ensures total > 0.0 ==> (Share(w, d) >= 0.0 <==> w[d] >= 0.0)
      ensures total < 0.0 ==> (Share(w, d) >= 0.0 <==> w[d] <= 0.0)
      ensures total == 0.0 ==> (Share(w, d) >= 0.0 <==> w[d] >= 0.0)
    {
      QuotientSign(w[d], Divisor(w));
    }
    if OneSign(w) && total == 0.0 {
      forall d | d in w ensures w[d] == 0.0 { assert d in ds; }
    }
  }

  lemma QuotientSign(x: real, y: real)
    requires y != 0.0
    ensures y > 0.0 ==> (x / y >= 0.0 <==> x >= 0.0)
    ensures y < 0.0 ==> (x / y >= 0.0 <==> x <= 0.0)
  {
    var q := x / y;
    assert q * y == x;
    ProductSign(q, y);
  }

  lemma ProductSign(q: real, y: real)
    ensures y > 0.0 ==> (q * y >= 0.0 <==> q >= 0.0)
    ensures y < 0.0 ==> (q * y <= 0.0 <==> q >= 0.0)
  {
    if q >= 0.0 && y > 0.0 { assert q * y >= 0.0; }
    if q < 0.0 && y > 0.0 { assert q * y < 0.0; }
    if q >= 0.0 && y < 0.0 { assert q * y <= 0.0; }
    if q < 0.0 && y < 0.0 { assert q * y > 0.0; }
  }

  lemma PosteriorInRange(findings: seq<Finding>, d: Domain, minSources: int)
    requires minSources >= 1 && d in DomainWeights(findings)
    ensures Posterior(findings, d, minSources) <= CEILING
    ensures Posterior(findings, d, minSources) >= 0.0 <==> Share(DomainWeights(findings), d) >= 0.0
    ensures Share(DomainWeights(findings), d) >= 0.0 ==> Posterior(findings, d, minSources) <= Share(DomainWeights(findings), d)
  {
    hide Share, Corroboration, Capped;
    CorroborationIsPositive(findings, d, minSources);
    CappedInRange(Share(DomainWeights(findings), d), Corroboration(findings, d, minSources));
  }

  lemma CappedInRange(s: real, c: real)
    requires 0.0 < c <= 1.0
    ensures Capped(s, c) <= CEILING
    ensures Capped(s, c) >= 0.0 <==> s >= 0.0
    ensures s >= 0.0 ==> Capped(s, c) <= s
  {
    var product := s * c;
    assert Capped(s, c) == MinR(CEILING, product);
    ProductSign(s, c);
    if s >= 0.0 { AtMost(s, c); }
  }

  lemma AtMost(s: real, c: real)
    requires s >= 0.0 && c <= 1.0
    ensures s * c <= s
  {
    ProductSign(s, 1.0 - c);
    NonNegativeProduct(s, 1.0 - c);
    assert s * (1.0 - c) == s - s * c;
  }

  /** Corroboration is what a share is worth: with enough distinct sources the posterior is the whole
      share up to the ceiling, with fewer it is strictly less, and never more than the fraction of the
      required sources that were found. */
  lemma SourcesLimitPosterior(findings: seq<Finding>, d: Domain, minSources: int)
    requires minSources >= 1 && d in DomainWeights(findings) && OneSign(DomainWeights(findings))
    ensures Counted(findings, d) >= minSources ==>
      Posterior(findings, d, minSources) == MinR(CEILING, Share(DomainWeights(findings), d))
    ensures Counted(findings, d) < minSources && Share(DomainWeights(findings), d) > 0.0 ==>
      Posterior(findings, d, minSources) < Share(DomainWeights(findings), d)
    ensures Posterior(findings, d, minSources) <= Counted(findings, d) as real / minSources as real
  {
    hide Share, Capped, Counted, OneSign;
    var s := Share(DomainWeights(findings), d);
    var n, m := Counted(findings, d), minSources;
    CorroborationIsPositive(findings, d, minSources);
    ShareAtMostOne(DomainWeights(findings), d);
    FractionOf(n, m);
    CappedByFraction(s, n as real / m as real);
  }

  /** Short of the sources and of the ceiling, the posterior is to the share as the sources found are to the
      sources asked for. */
  lemma PosteriorBelowCeiling(findings: seq<Finding>, d: Domain, minSources: int)
    requires minSources >= 1
    ensures Counted(findings, d) < minSources && Posterior(findings, d, minSources) < CEILING ==>
      Posterior(findings, d, minSources) * minSources as real == Share(DomainWeights(findings), d) * Counted(findings, d) as real
  {
    hide Share, Counted, DomainWeights;
    var s, n, m := Share(DomainWeights(findings), d), Counted(findings, d), minSources;
    if n < m && Posterior(findings, d, m) < CEILING {
      FractionOf(n, m);
      var q := n as real / m as real;
      assert Posterior(findings, d, m) == Times(s, q);
      Regroup(s, q, m as real, n as real);
    }
  }

  lemma Regroup(s: real, q: real, m: real, n: real)
    requires q * m == n
    ensures Times(s, q) * m == s * n
  {
  }

  lemma FractionOf(n: nat, m: nat)
    requires m >= 1
    ensures n as real / m as real >= 1.0 <==> n >= m
  {
    var q := n as real / m as real;
    assert q * m as real == n as real;
    ProductSign(q - 1.0, m as real);
    assert (q - 1.0) * m as real == n as real - m as real;
  }

  lemma CappedByFraction(s: real, q: real)
    requires 0.0 <= s <= 1.0 && q > 0.0
    ensures q >= 1.0 ==> Capped(s, MinR(1.0, q)) == MinR(CEILING, s)
    ensures q < 1.0 && s > 0.0 ==> Capped(s, MinR(1.0, q)) < s
    ensures Capped(s, MinR(1.0, q)) <= q
  {
    var c := MinR(1.0, q);
    PartOf(s, c);
    hide Times;
  }

  lemma PartOf(s: real, c: real)
    requires 0.0 <= s <= 1.0 && c <= 1.0
    requires c > 0.0
    ensures Times(s, c) <= c && Times(s, 1.0) == s
    ensures c < 1.0 && s > 0.0 ==> Times(s, c) < s
  {
    AtMost(c, s);
    if c < 1.0 && s > 0.0 {
      StrictProduct(s, 1.0 - c);
      assert s * (1.0 - c) == s - s * c;
    }
  }

  lemma ShareAtMostOne(w: Weights, d: Domain)
    requires d in w && OneSign(w)
    ensures 0.0 <= Share(w, d) <= 1.0
  {
    hide SumOver;
    SharesAreNonNegativeIff(w);
    PresentAreKeys(w);
    SumSigns(PresentIn(DOMAINS, w), w);
    PartOfWhole(w[d], Total(w));
  }

  lemma PartOfWhole(x: real, total: real)
    requires 0.0 <= x <= total || total <= x <= 0.0
    ensures x / (if total == 0.0 then 1.0 else total) <= 1.0
  {
    if total != 0.0 {
      var q := x / total;
      assert q * total == x;
      ProductSign(1.0 - q, total);
      assert (1.0 - q) * total == total - x;
    }
  }

  lemma PriorInRange(n: nat)
    requires n > 0
    ensures 0.0 <= 1.0 / n as real <= 1.0
  {
  }

  /** The posteriors are all non-negative exactly when no two domains' weights have opposite signs, for
      which non-negative scores are enough. */
  lemma {:induction false} PosteriorsAreNonNegativeIff(findings: seq<Finding>, minSources: int)
    requires minSources >= 1
    ensures (forall d :: d in DomainWeights(findings) ==> Posterior(findings, d, minSources) >= 0.0) <==> OneSign(DomainWeights(findings))
    ensures (forall f :: f in findings ==> f.score >= 0.0 && f.confidence >= 0.0) ==> OneSign(DomainWeights(findings))
  {
    hide DomainWeights, Posterior, Share;
    WeightsAreSuspicions(findings);
    SharesAreNonNegativeIff(DomainWeights(findings));
    forall d | d in DomainWeights(findings)
      ensures Posterior(findings, d, minSources) >= 0.0 <==> Share(DomainWeights(findings), d) >= 0.0
    {
      PosteriorInRange(findings, d, minSources);
    }
  }

  ghost predicate Buildable(findings: seq<Finding>, minSources: int, rejected: map<Domain, string>)
    requires minSources >= 1
  {
    forall d :: d in DomainWeights(findings) ==>
      Posterior(findings, d, minSources) >= -SLACK && (d in rejected ==> Written(rejected[d]))
  }

  /** The hypotheses of a diagnosis can be built exactly when no posterior is more than half a rounding
      step below zero and every suspected domain that was ruled out carries a reason that is more than
      white space. */
  lemma {:induction false} HypothesesBuildIff(findings: seq<Finding>, minSources: int, rejected: map<Domain, string>)
    requires minSources >= 1
    ensures (forall d :: d in DomainWeights(findings) ==>
        |DomainWeights(findings)| > 0 && ValidHypothesis(HypothesisFor(findings, d, minSources, rejected))) <==>
      Buildable(findings, minSources, rejected)
    ensures OneSign(DomainWeights(findings)) && (forall d :: d in DomainWeights(findings) && d in rejected ==> Written(rejected[d])) ==>
      Buildable(findings, minSources, rejected)
  {
    hide DomainWeights, Posterior, Share, Rounded, Written, OneSign;
    var w := DomainWeights(findings);
    PosteriorsAreNonNegativeIff(findings, minSources);
    forall d | d in w
      ensures |w| > 0
      ensures ValidHypothesis(HypothesisFor(findings, d, minSources, rejected)) <==>
        Posterior(findings, d, minSources) >= -SLACK && (d in rejected ==> Written(rejected[d]))
    {
      assert d in w.Keys;
      PosteriorInRange(findings, d, minSources);
      PriorInRange(|w|);
      RoundedInRange(Posterior(findings, d, minSources));
      RoundedInRange(1.0 / |w| as real);
    }
  }

  // -- posteriors sum to at most one -------------------------------------------------------------

  function SumPosteriors(hs: seq<Hypothesis>): real {
    if hs == [] then 0.0 else hs[0].posterior + SumPosteriors(hs[1..])
  }

  /** The posteriors before rounding. */
  function SumUnrounded(findings: seq<Finding>, ds: seq<Domain>, minSources: int): real
    requires minSources >= 1
  {
    if ds == [] then 0.0 else Posterior(findings, ds[0], minSources) + SumUnrounded(findings, ds[1..], minSources)
  }

  function SumShares(ds: seq<Domain>, w: Weights): real {
    if ds == [] then 0.0 else Share(w, ds[0]) + SumShares(ds[1..], w)
  }

  lemma ShareScales(w: Weights, d: Domain)
    ensures Share(w, d) * Divisor(w) == WeightOf(w, d)
  {
    hide WeightOf, Total;
  }

  lemma {:induction false} SharesScale(ds: seq<Domain>, w: Weights)
    ensures SumShares(ds, w) * Divisor(w) == SumOver(ds, w)
  {
    hide Share, Divisor, WeightOf;
    if ds != [] {
      SharesScale(ds[1..], w);
      ShareScales(w, ds[0]);
      DistributesLeft(Share(w, ds[0]), SumShares(ds[1..], w), Divisor(w));
    }
  }

  lemma DistributesLeft(x: real, y: real, z: real)
    ensures (x + y) * z == x * z + y * z
  {
  }

  lemma {:induction false} SumFollowsMembers(xs: seq<Domain>, ys: seq<Domain>, w: Weights)
    requires multiset(xs) == multiset(ys)
    ensures SumOver(xs, w) == SumOver(ys, w)
  {
    SameMembers(xs, ys);
    if xs == [] {
      assert ys == [];
    } else {
      var k := RestAlike(xs, ys);
      SumWithout(ys, k, w);
      SumFollowsMembers(xs[1..], ys[..k] + ys[k + 1..], w);
    }
  }

  lemma {:induction false} SumWithout(ys: seq<Domain>, k: nat, w: Weights)
    requires k < |ys|
    ensures SumOver(ys, w) == WeightOf(w, ys[k]) + SumOver(ys[..k] + ys[k + 1..], w)
  {
    var rest := ys[..k] + ys[k + 1..];
    if k == 0 {
      assert rest == ys[1..];
    } else {
      assert rest[0] == ys[0] && rest[1..] == ys[1..][..k - 1] + ys[1..][k..];
      SumWithout(ys[1..], k - 1, w);
    }
  }

  lemma {:induction false} PosteriorsUnderShares(findings: seq<Finding>, minSources: int, ds: seq<Domain>)
    requires minSources >= 1
    requires forall d :: d in ds ==> d in DomainWeights(findings) && Share(DomainWeights(findings), d) >= 0.0
    ensures SumUnrounded(findings, ds, minSources) <= SumShares(ds, DomainWeights(findings))
  {
    hide DomainWeights, Posterior, Share;
    if ds != [] {
      assert ds == [ds[0]] + ds[1..];
      PosteriorInRange(findings, ds[0], minSources);
      PosteriorsUnderShares(findings, minSources, ds[1..]);
    }
  }

  /** Rounding each adds at most half a step for each. */
  lemma {:induction false} RoundingAddsSlack(findings: seq<Finding>, minSources: int, rejected: map<Domain, string>, ds: seq<Domain>, hs: seq<Hypothesis>)
    requires minSources >= 1 && |hs| == |ds| && |DomainWeights(findings)| > 0
    requires forall k :: 0 <= k < |hs| ==> hs[k] == HypothesisFor(findings, ds[k], minSources, rejected)
    ensures SumPosteriors(hs) <= SumUnrounded(findings, ds, minSources) + |hs| as real * SLACK
  {
    hide DomainWeights, Posterior, Rounded;
    if hs != [] {
      RoundedIsClose(Posterior(findings, ds[0], minSources), 0.0);
      RoundingAddsSlack(findings, minSources, rejected, ds[1..], hs[1..]);
    }
  }

  lemma SharesSumTo(w: Weights)
    ensures SumShares(Ranked(w), w) == if Total(w) == 0.0 then 0.0 else 1.0
  {
    hide Share, Ranked, PresentIn, SumOver, SumShares;
    SharesScale(Ranked(w), w);
    RankedHoldsKeys(w);
    SumFollowsMembers(Ranked(w), PresentIn(DOMAINS, w), w);
    QuotientIsOneOrZero(SumShares(Ranked(w), w), Total(w));
  }

  /** Together the hypotheses never claim more than the whole of the evidence, give or take half a
      rounding step for each of them. */
  lemma {:induction false} PosteriorsSumToAtMostOne(findings: seq<Finding>, minSources: int, rejected: map<Domain, string>, hs: seq<Hypothesis>)
    requires minSources >= 1 && IsHypothesisSet(findings, minSources, rejected, hs)
    requires forall f :: f in findings ==> f.score >= 0.0 && f.confidence >= 0.0
    ensures SumUnrounded(findings, Ranked(DomainWeights(findings)), minSources) <= 1.0
    ensures SumPosteriors(hs) <= 1.0 + |hs| as real * SLACK
  {
    hide DomainWeights, HypothesisFor, Share, Ranked, Total, SumShares, ValidHypothesis, SumUnrounded, SumPosteriors, OneSign;
    var w := DomainWeights(findings);
    var ranked := Ranked(w);
    RankedHoldsKeys(w);
    SharesSumTo(w);
    PosteriorsAreNonNegativeIff(findings, minSources);
    SharesAreNonNegativeIff(w);
    PosteriorsUnderShares(findings, minSources, ranked);
    if |hs| > 0 {
      assert hs[0] == HypothesisFor(findings, ranked[0], minSources, rejected);
      RoundingAddsSlack(findings, minSources, rejected, ranked, hs);
    } else {
      NothingClaimed(hs);
    }
  }

  lemma NothingClaimed(hs: seq<Hypothesis>)
    requires hs == []
    ensures SumPosteriors(hs) == 0.0
  {
  }

  lemma QuotientIsOneOrZero(s: real, total: real)
    requires s * (if total == 0.0 then 1.0 else total) == total
    ensures s == if total == 0.0 then 0.0 else 1.0
  {
    if total != 0.0 {
      assert (s - 1.0) * total == 0.0;
      ZeroProduct(s - 1.0, total);
    }
  }

  lemma ZeroProduct(x: real, y: real)
    requires x * y == 0.0 && y != 0.0
    ensures x == 0.0
  {
  }

  // -- the conclusion ----------------------------------------------------------------------------

  datatype Reason = RcaConfident | RcaLowConfidence | RcaConflictingEvidence

  datatype Rca = Rca(faultDomain: Domain, confidence: real, primary: Option<Domain>, hypotheses: seq<Hypothesis>, reason: Reason)

  function Live(hs: seq<Hypothesis>): (r: seq<Hypothesis>)
    ensures forall h :: h in r <==> h in hs && !h.rejected
  {
    if hs == [] then []
    else
      assert hs == [hs[0]] + hs[1..];
      (if hs[0].rejected then [] else [hs[0]]) + Live(hs[1..])
  }

  /** The first hypothesis about the domain, or about any other. */
  function FirstAbout(hs: seq<Hypothesis>, d: Domain, about: bool): (r: Option<Hypothesis>)
    ensures r.Some? ==> r.value in hs && (r.value.domain == d) == about
    ensures r.None? ==> forall h :: h in hs ==> (h.domain == d) != about
  {
    if hs == [] then None
    else if (hs[0].domain == d) == about then Some(hs[0])
    else
      assert hs == [hs[0]] + hs[1..];
      FirstAbout(hs[1..], d, about)
  }

  predicate HigherFirst(a: Hypothesis, b: Hypothesis) { a.posterior >= b.posterior }

  function Confidence(leader: real, rival: real): real {
    if leader + rival > 0.0 then leader / (leader + rival) * leader else 0.0
  }

  /** `RCAResult.derive`. A hypothesis's id names its domain, so `primary` holds the domain. */
  function Derive(d: Domain, hs: seq<Hypothesis>, confidentAt: real, margin: real): Rca {
    var live := Sort(Live(hs), HigherFirst);
    var leader := FirstAbout(live, d, true);
    if leader.None? then Rca(Unknown, 0.0, None, hs, RcaLowConfidence)
    else
      var other := FirstAbout(live, d, false);
      var rival := if other.Some? then other.value.posterior else 0.0;
      var confidence := Confidence(leader.value.posterior, rival);
      Rca(d, Rounded(MinR(1.0, confidence)), Some(leader.value.domain), hs,
        if rival > 0.0 && leader.value.posterior - rival < margin then RcaConflictingEvidence
        else if confidence >= confidentAt then RcaConfident
        else RcaLowConfidence)
  }

  /** The result's own validators: a confidence in range, and a primary that names a live hypothesis
      about the stated domain. */
  ghost predicate ValidRca(r: Rca) {
    && 0.0 <= r.confidence <= 1.0
    && (r.primary.Some? ==>
         var named := FirstAbout(r.hypotheses, r.primary.value, true);
         named.Some? && !named.value.rejected && named.value.domain == r.faultDomain)
  }

  ghost predicate OnePerDomain(hs: seq<Hypothesis>) {
    forall i, j :: 0 <= i < j < |hs| ==> hs[i].domain != hs[j].domain
  }

  lemma RankedIsDistinct(w: Weights)
    ensures Distinct(Ranked(w))
  {
    hide Ranked;
    RankedHoldsKeys(w);
    AllDistinct();
    PresentIsDistinct(DOMAINS, w);
    DistinctByCount(PresentIn(DOMAINS, w));
    DistinctByCount(Ranked(w));
  }

  lemma AllDistinct()
    ensures Distinct(DOMAINS)
  {
    forall i, j | 0 <= i < j < |DOMAINS| ensures DOMAINS[i] != DOMAINS[j] {
      assert Alphabetical(DOMAINS[i]) == i && Alphabetical(DOMAINS[j]) == j;
    }
  }

  lemma MembersFollowRanking(w: Weights, ranked: seq<Domain>, hs: seq<Hypothesis>, rejected: map<Domain, string>)
    requires |hs| == |ranked| && Distinct(ranked) && forall d :: d in ranked <==> d in w
    requires forall k :: 0 <= k < |hs| ==> hs[k].domain == ranked[k] && hs[k].rejected == (ranked[k] in rejected)
    ensures OnePerDomain(hs)
    ensures forall h :: h in hs ==> h.domain in w
    ensures forall d :: d in w ==> exists h :: h in hs && h.domain == d && h.rejected == (d in rejected)
  {
    forall d | d in w ensures exists h :: h in hs && h.domain == d && h.rejected == (d in rejected) {
      assert d in ranked;
      var k :| 0 <= k < |ranked| && ranked[k] == d;
      assert hs[k] in hs;
    }
    forall h | h in hs ensures h.domain in w {
      var k :| 0 <= k < |hs| && hs[k] == h;
      assert ranked[k] in ranked;
    }
  }

  lemma {:induction false} SetsHaveOnePerDomain(findings: seq<Finding>, minSources: int, rejected: map<Domain, string>, hs: seq<Hypothesis>)
    requires minSources >= 1 && IsHypothesisSet(findings, minSources, rejected, hs)
    ensures OnePerDomain(hs)
    ensures forall h :: h in hs ==> 0.0 <= h.posterior <= CEILING && Rounded(h.posterior) == h.posterior
    ensures forall h :: h in hs ==> h.domain in DomainWeights(findings)
    ensures forall d :: d in DomainWeights(findings) ==> exists h :: h in hs && h.domain == d && h.rejected == (d in rejected)
  {
    hide DomainWeights, Ranked, Posterior, PresentIn, Alphabetical, Distinct, Rounded, Written;
    var w := DomainWeights(findings);
    var ranked := Ranked(w);
    RankedHoldsKeys(w);
    RankedIsDistinct(w);
    MembersFollowRanking(w, ranked, hs, rejected);
    CeilingStays();
    forall k | 0 <= k < |hs| ensures 0.0 <= hs[k].posterior <= CEILING && Rounded(hs[k].posterior) == hs[k].posterior {
      assert ranked[k] in ranked;
      PosteriorInRange(findings, ranked[k], minSources);
      RoundedIsClose(Posterior(findings, ranked[k], minSources), CEILING);
    }
  }

  lemma {:induction false} PresentIsDistinct(ds: seq<Domain>, w: Weights)
    requires Distinct(ds)
    ensures Distinct(PresentIn(ds, w))
  {
    if ds != [] {
      PresentIsDistinct(ds[1..], w);
      var rest := PresentIn(ds[1..], w);
      forall k | 0 <= k < |rest| ensures rest[k] != ds[0] { assert rest[k] in rest && rest[k] in ds[1..]; }
    }
  }

  lemma {:induction false} FirstIsHighest(live: seq<Hypothesis>, d: Domain, about: bool)
    requires SortedBy(live, HigherFirst) && FirstAbout(live, d, about).Some?
    ensures forall h :: h in live && (h.domain == d) == about ==> h.posterior <= FirstAbout(live, d, about).value.posterior
  {
    assert live != [];
    assert live == [live[0]] + live[1..];
    if (live[0].domain == d) == about {
      forall h | h in live ensures h.posterior <= live[0].posterior {
        var k :| 0 <= k < |live| && live[k] == h;
        assert k == 0 || HigherFirst(live[0], live[k]);
      }
    } else {
      FirstIsHighest(live[1..], d, about);
    }
  }

  /** What `derive` leads with and against: the best live hypothesis in the domain and the best live
      one outside it. */
  ghost predicate LeadsWith(r: Rca, d: Domain, leader: real, rival: real) {
    && r.faultDomain == d && r.confidence == Rounded(Confidence(leader, rival))
    && (exists h :: h in r.hypotheses && !h.rejected && h.domain == d && h.posterior == leader)
    && (forall h :: h in r.hypotheses && !h.rejected && h.domain == d ==> h.posterior <= leader)
    && (forall h :: h in r.hypotheses && !h.rejected && h.domain != d ==> h.posterior <= rival)
    && (rival == 0.0 || exists h :: h in r.hypotheses && !h.rejected && h.domain != d && h.posterior == rival)
  }

  lemma ConfidenceInRange(leader: real, rival: real)
    requires 0.0 <= leader <= 1.0 && rival >= 0.0
    ensures 0.0 <= Confidence(leader, rival) <= leader
  {
    if leader + rival > 0.0 {
      var q := leader / (leader + rival);
      assert q * (leader + rival) == leader;
      assert 0.0 <= q <= 1.0;
      NonNegativeProduct(q, leader);
      AtMost(leader, q);
    }
  }

  lemma {:induction false} NamedIsItself(hs: seq<Hypothesis>, h: Hypothesis)
    requires OnePerDomain(hs) && h in hs
    ensures FirstAbout(hs, h.domain, true) == Some(h)
  {
    if hs[0] != h {
      assert hs == [hs[0]] + hs[1..];
      var k :| 0 <= k < |hs| && hs[k] == h;
      assert hs[0].domain != hs[k].domain;
      NamedIsItself(hs[1..], h);
    }
  }

  /** Deriving from one hypothesis per domain never violates the result's validators. It keeps the
      classifier's domain exactly when a live hypothesis supports it, and its confidence never
      exceeds the leader's posterior, rounded as the records are. */
  lemma DeriveIsSound(d: Domain, hs: seq<Hypothesis>, confidentAt: real, margin: real)
    requires OnePerDomain(hs) && forall h :: h in hs ==> 0.0 <= h.posterior <= CEILING
    ensures var r := Derive(d, hs, confidentAt, margin);
      && ValidRca(r)
      && (r.primary.Some? <==> exists h :: h in hs && !h.rejected && h.domain == d)
      && (r.primary.None? ==> r.faultDomain == Unknown && r.confidence == 0.0 && r.reason == RcaLowConfidence)
      && (r.primary.Some? ==> r.primary.value == d && exists leader, rival ::
           LeadsWith(r, d, leader, rival) && 0.0 <= r.confidence <= Rounded(leader) <= CEILING && 0.0 <= rival <= CEILING)
  {
    var live := Sort(Live(hs), HigherFirst);
    LiveIsRanked(hs);
    var r := Derive(d, hs, confidentAt, margin);
    var leader, other := FirstAbout(live, d, true), FirstAbout(live, d, false);
    hide Sort, Confidence, Live, Rounded;
    if leader.Some? {
      var rival := if other.Some? then other.value.posterior else 0.0;
      RoundedConfidenceInRange(leader.value.posterior, rival);
      DeriveLeads(d, hs, confidentAt, margin);
      NamedIsItself(hs, leader.value);
      hide Derive, FirstAbout, LeadsWith;
      assert 0.0 <= r.confidence <= Rounded(leader.value.posterior) <= CEILING && 0.0 <= rival <= CEILING;
    }
  }

  lemma RoundedConfidenceInRange(leader: real, rival: real)
    requires 0.0 <= leader <= CEILING && rival >= 0.0
    ensures 0.0 <= Confidence(leader, rival) <= leader
    ensures 0.0 <= Rounded(Confidence(leader, rival)) <= Rounded(leader) <= CEILING
  {
    hide Rounded, Confidence;
    CeilingStays();
    ConfidenceInRange(leader, rival);
    RoundedIsClose(0.0, Confidence(leader, rival));
    RoundedIsClose(Confidence(leader, rival), leader);
    RoundedIsClose(leader, CEILING);
  }

  lemma LiveIsRanked(hs: seq<Hypothesis>)
    ensures SortedBy(Sort(Live(hs), HigherFirst), HigherFirst)
    ensures forall h :: h in Sort(Live(hs), HigherFirst) <==> h in hs && !h.rejected
  {
    SortSorts(Live(hs), HigherFirst);
    SameMembers(Live(hs), Sort(Live(hs), HigherFirst));
  }

  lemma DeriveLeads(d: Domain, hs: seq<Hypothesis>, confidentAt: real, margin: real)
    requires forall h :: h in hs ==> 0.0 <= h.posterior <= CEILING
    ensures var live := Sort(Live(hs), HigherFirst);
      var leader, other := FirstAbout(live, d, true), FirstAbout(live, d, false);
      leader.Some? ==>
        LeadsWith(Derive(d, hs, confidentAt, margin), d, leader.value.posterior, if other.Some? then other.value.posterior else 0.0)
  {
    var live := Sort(Live(hs), HigherFirst);
    LiveIsRanked(hs);
    var leader, other := FirstAbout(live, d, true), FirstAbout(live, d, false);
    if leader.Some? {
      FirstIsHighest(live, d, true);
      if other.Some? { FirstIsHighest(live, d, false); }
      RoundedConfidenceInRange(leader.value.posterior, if other.Some? then other.value.posterior else 0.0);
      hide Sort, Confidence, Live, FirstAbout, Rounded;
    }
  }

  /** The best posterior among the live hypotheses about a domain, or about the others. */
  ghost predicate BestAbout(hs: seq<Hypothesis>, d: Domain, about: bool, best: real) {
    && (exists h :: h in hs && !h.rejected && (h.domain == d) == about && h.posterior == best)
    && (forall h :: h in hs && !h.rejected && (h.domain == d) == about ==> h.posterior <= best)
  }

  ghost predicate RivalIs(hs: seq<Hypothesis>, d: Domain, rival: real) {
    BestAbout(hs, d, false, rival) || (rival == 0.0 && forall h :: h in hs && !h.rejected ==> h.domain == d)
  }

  /** What the reason says of the hypotheses: the evidence conflicts exactly when some live hypothesis
      about another domain comes within the margin of the best one about this domain, and otherwise the
      diagnosis is confident exactly when its confidence, before rounding, meets the bar. */
  lemma ReasonMeans(d: Domain, hs: seq<Hypothesis>, confidentAt: real, margin: real, best: real, rival: real)
    requires forall h :: h in hs ==> 0.0 <= h.posterior <= CEILING
    requires BestAbout(hs, d, true, best) && RivalIs(hs, d, rival)
    ensures var r := Derive(d, hs, confidentAt, margin);
      var contested := exists h :: h in hs && !h.rejected && h.domain != d && h.posterior > 0.0 && best - h.posterior < margin;
      && r.confidence == Rounded(Confidence(best, rival))
      && (r.reason == RcaConflictingEvidence <==> contested)
      && (r.reason == RcaConfident <==> !contested && Confidence(best, rival) >= confidentAt)
  {
    var live := Sort(Live(hs), HigherFirst);
    LiveIsRanked(hs);
    DeriveLeads(d, hs, confidentAt, margin);
    var leader, other := FirstAbout(live, d, true), FirstAbout(live, d, false);
    hide Sort, Live, FirstAbout, Confidence, Rounded;
    assert leader.Some?;
    var second := if other.Some? then other.value.posterior else 0.0;
    assert LeadsWith(Derive(d, hs, confidentAt, margin), d, leader.value.posterior, second);
    assert leader.value.posterior == best;
    assert second == rival;
  }

  /** More evidence for the leader raises the confidence; more for its rival lowers it. */
  lemma ConfidenceIsMonotone(l1: real, l2: real, r1: real, r2: real)
    requires 0.0 <= l1 && 0.0 <= l2 && 0.0 <= r1 && 0.0 <= r2
    ensures l1 < l2 ==> Confidence(l1, r1) < Confidence(l2, r1)
    ensures r1 < r2 && l1 > 0.0 ==> Confidence(l1, r2) < Confidence(l1, r1)
  {
    if l1 < l2 { RisesWithLeader(l1, l2, r1); }
    if r1 < r2 && l1 > 0.0 { FallsWithRival(l1, r1, r2); }
  }

  /** A hypothesis nothing competes with keeps its posterior, one matched by a rival keeps half of it, and in
      general the confidence is the leader's share of the two, of itself. */
  lemma ConfidenceMeans(leader: real, rival: real)
    requires leader >= 0.0 && rival >= 0.0
    ensures Confidence(leader, 0.0) == leader
    ensures Confidence(leader, leader) == leader / 2.0
    ensures Confidence(leader, rival) * (leader + rival) == leader * leader
  {
    if leader > 0.0 {
      assert leader / leader == 1.0;
      Halved(leader);
    }
    if leader + rival > 0.0 {
      var q := leader / (leader + rival);
      assert q * (leader + rival) == leader;
      assert (q * leader) * (leader + rival) == (q * (leader + rival)) * leader;
    }
  }

  lemma Halved(x: real)
    requires x > 0.0
    ensures x / (x + x) * x == x / 2.0
  {
    var q := x / (x + x);
    assert q * (x + x) == x;
    assert (2.0 * q - 1.0) * x == 0.0;
    ZeroProduct(2.0 * q - 1.0, x);
  }

  lemma PositiveFactor(x: real, y: real)
    requires x * y > 0.0 && y > 0.0
    ensures x > 0.0
  {
  }

  lemma SmallerShare(a: real, b: real, c: real, d: real)
    requires b > 0.0 && d > 0.0 && a * d < c * b
    ensures a / b < c / d
  {
    var p, q := a / b, c / d;
    assert p * b == a && q * d == c;
    var bd := b * d;
    assert bd > 0.0;
    assert a * d == p * bd && c * b == q * bd;
    assert (q - p) * bd == q * bd - p * bd;
    PositiveFactor(q - p, bd);
  }

  lemma RisesWithLeader(l1: real, l2: real, r: real)
    requires 0.0 <= l1 < l2 && 0.0 <= r
    ensures Confidence(l1, r) < Confidence(l2, r)
  {
    var q2 := l2 / (l2 + r);
    PositiveQuotient(l2, l2 + r);
    assert q2 * l2 > 0.0;
    if l1 > 0.0 {
      var q1 := l1 / (l1 + r);
      PositiveQuotient(l1, l1 + r);
      SharesOrder(l1, l2, r);
      assert q1 <= q2;
      ProductOrder(q1, q2, l1, l2);
    } else {
      assert Confidence(l1, r) == 0.0 by { if l1 + r > 0.0 { assert l1 / (l1 + r) * 0.0 == 0.0; } }
    }
  }

  lemma SharesOrder(l1: real, l2: real, r: real)
    requires 0.0 < l1 < l2 && 0.0 <= r
    ensures l1 / (l1 + r) <= l2 / (l2 + r)
  {
    if r == 0.0 {
      WholeShare(l1, l1 + r);
      WholeShare(l2, l2 + r);
    } else {
      SameRemainder(l1, l1 + r, l2, l2 + r, r);
    }
  }

  lemma WholeShare(a: real, b: real)
    requires a == b != 0.0
    ensures a / b == 1.0
  {
  }

  lemma SameRemainder(a: real, b: real, c: real, d: real, r: real)
    requires 0.0 < a < c && r > 0.0 && b == a + r && d == c + r
    ensures a / b < c / d
  {
    var ac, ar, cr := a * c, a * r, c * r;
    CrossProducts(a, b, c, d, r);
    assert ar < cr by {
      StrictProduct(c - a, r);
      assert (c - a) * r == c * r - a * r;
    }
    SmallerShare(a, b, c, d);
  }

  lemma CrossProducts(a: real, b: real, c: real, d: real, r: real)
    requires b == a + r && d == c + r
    ensures a * d == a * c + a * r && c * b == a * c + c * r
  {
    DistributesLeft(a, r, c);
    DistributesLeft(c, r, a);
  }

  lemma StrictProduct(x: real, y: real)
    requires x > 0.0 && y > 0.0
    ensures x * y > 0.0
  {
  }

  lemma ProductOrder(a: real, b: real, x: real, y: real)
    requires 0.0 < a <= b && 0.0 < x < y
    ensures a * x < b * y
  {
    StrictProduct(a, y - x);
    NonNegativeProduct(b - a, y);
    assert a * (y - x) == a * y - a * x && (b - a) * y == b * y - a * y;
  }

  lemma FallsWithRival(l: real, r1: real, r2: real)
    requires l > 0.0 && 0.0 <= r1 < r2
    ensures Confidence(l, r2) < Confidence(l, r1)
  {
    StrictProduct(l, r2 - r1);
    assert l * (l + r1) == l * l + l * r1 && l * (l + r2) == l * l + l * r2 && l * (r2 - r1) == l * r2 - l * r1;
    SmallerShare(l, l + r2, l, l + r1);
    var p, q := l / (l + r2), l / (l + r1);
    StrictProduct(q - p, l);
    assert (q - p) * l == q * l - p * l;
  }

  // -- the classifier ----------------------------------------------------------------------------

  predicate OutranksForClassifier(w: Weights, a: Domain, b: Domain) {
    || WeightOf(w, a) > WeightOf(w, b)
    || (WeightOf(w, a) == WeightOf(w, b) && (Reach(a) > Reach(b) || (Reach(a) == Reach(b) && Alphabetical(a) <= Alphabetical(b))))
  }

  /** The classifier's domain: power wins outright, otherwise the heaviest, then the outermost. */
  function Classify(w: Weights): Option<Domain> {
    if Power in w then Some(Power)
    else
      var ranked := Sort(PresentIn(DOMAINS, w), (a, b) => OutranksForClassifier(w, a, b));
      if ranked == [] then None else Some(ranked[0])
  }

  lemma ClassifierOrders(w: Weights)
    ensures Preorder((a: Domain, b: Domain) => OutranksForClassifier(w, a, b))
  {
    hide WeightOf, Reach;
    forall a: Domain, b: Domain ensures OutranksForClassifier(w, a, b) || OutranksForClassifier(w, b, a) {}
    forall a: Domain, b: Domain, c: Domain | OutranksForClassifier(w, a, b) && OutranksForClassifier(w, b, c)
      ensures OutranksForClassifier(w, a, c) {}
  }

  lemma ClassifierChoosesASuspect(w: Weights)
    ensures Classify(w).None? <==> forall d :: d !in w
    ensures Classify(w).Some? ==> Classify(w).value in w
    ensures Classify(w).Some? && Power !in w ==> forall d :: d in w ==> w[d] <= w[Classify(w).value]
    ensures Power in w ==> Classify(w) == Some(Power)
    ensures Classify(w).Some? && Power !in w ==> forall d :: d in w && w[d] == w[Classify(w).value] ==>
      var chosen := Classify(w).value;
      Reach(d) < Reach(chosen) || (Reach(d) == Reach(chosen) && Alphabetical(chosen) <= Alphabetical(d))
  {
    hide PresentIn, Sort, Reach, Alphabetical, Preorder;
    var leq := (a, b) => OutranksForClassifier(w, a, b);
    var present := PresentIn(DOMAINS, w);
    var ranked := Sort(present, leq);
    PresentAreKeys(w);
    ClassifierOrders(w);
    SortSorts(present, leq);
    SameMembers(present, ranked);
    NoMembers(ranked);
    if |ranked| > 0 {
      assert ranked[0] in ranked;
      forall d | d in w ensures d == ranked[0] || OutranksForClassifier(w, ranked[0], d) {
        assert d in ranked;
        var k :| 0 <= k < |ranked| && ranked[k] == d;
        assert k == 0 || leq(ranked[0], ranked[k]);
      }
    }
  }

  /** The classifier and the conclusion cannot disagree: concluding with the classifier's domain keeps
      that domain, with its own hypothesis as primary, exactly when a previous cycle has not ruled it
      out; and whatever is concluded satisfies every validator. */
  lemma {:induction false} ConclusionFollowsClassifier(findings: seq<Finding>, minSources: int, rejected: map<Domain, string>,
      hs: seq<Hypothesis>, confidentAt: real, margin: real)
    requires minSources >= 1 && IsHypothesisSet(findings, minSources, rejected, hs)
    requires Classify(DomainWeights(findings)).Some?
    ensures var d := Classify(DomainWeights(findings)).value;
      var r := Derive(d, hs, confidentAt, margin);
      ValidRca(r) && (r.primary == Some(d) <==> d !in rejected)
  {
    hide DomainWeights, Classify, Derive, IsHypothesisSet;
    ClassifierChoosesASuspect(DomainWeights(findings));
    SetsHaveOnePerDomain(findings, minSources, rejected, hs);
    var d := Classify(DomainWeights(findings)).value;
    DeriveIsSound(d, hs, confidentAt, margin);
    var h :| h in hs && h.domain == d && h.rejected == (d in rejected);
    NamedIsItself(hs, h);
    forall g | g in hs && g.domain == d ensures g == h { NamedIsItself(hs, g); }
  }

  /** One diagnosis cycle. Nothing comes back exactly when a hypothesis refuses to be built; whatever
      comes back satisfies the result's validators and answers for the domain it was asked about, or
      for no domain at all. */
  method Conclude(findings: seq<Finding>, d: Domain, minSources: int, rejected: map<Domain, string>,
      confidentAt: real, margin: real) returns (r: Option<Rca>)
    requires minSources >= 1
    ensures r.Some? <==> Buildable(findings, minSources, rejected)
    ensures r.Some? ==>
      && IsHypothesisSet(findings, minSources, rejected, r.value.hypotheses)
      && r.value == Derive(d, r.value.hypotheses, confidentAt, margin) && ValidRca(r.value)
      && r.value.faultDomain == (if d in DomainWeights(findings) && d !in rejected then d else Unknown)
      && r.value.confidence <= CEILING
      && (forall h :: h in r.value.hypotheses && h.domain == d && !h.rejected ==> r.value.confidence <= h.posterior)
  {
    hide DomainWeights, IsHypothesisSet, Derive, OneSign, ValidRca, HypothesisFor, ValidHypothesis, Buildable;
    HypothesesBuildIff(findings, minSources, rejected);
    var built := BuildHypotheses(findings, minSources, rejected);
    if built.None? { return None; }
    ConclusionAnswers(findings, d, minSources, rejected, built.value, confidentAt, margin);
    r := Some(Derive(d, built.value, confidentAt, margin));
  }

  lemma ConclusionAnswers(findings: seq<Finding>, d: Domain, minSources: int, rejected: map<Domain, string>,
      hs: seq<Hypothesis>, confidentAt: real, margin: real)
    requires minSources >= 1 && IsHypothesisSet(findings, minSources, rejected, hs)
    ensures var r := Derive(d, hs, confidentAt, margin);
      && r.hypotheses == hs && ValidRca(r) && r.confidence <= CEILING
      && r.faultDomain == (if d in DomainWeights(findings) && d !in rejected then d else Unknown)
      && (forall h :: h in hs && h.domain == d && !h.rejected ==> r.confidence <= h.posterior)
  {
    hide DomainWeights, IsHypothesisSet, Derive, ValidRca, OnePerDomain, Rounded, Confidence;
    SetsHaveOnePerDomain(findings, minSources, rejected, hs);
    DeriveIsSound(d, hs, confidentAt, margin);
    DeriveAnswersFor(d, hs, confidentAt, margin);
    OnlyOneAbout(hs, d);
  }

  lemma DeriveAnswersFor(d: Domain, hs: seq<Hypothesis>, confidentAt: real, margin: real)
    ensures var r := Derive(d, hs, confidentAt, margin);
      r.hypotheses == hs && r.faultDomain == if r.primary.Some? then d else Unknown
  {
    hide Sort, Live, FirstAbout, Confidence;
  }

  lemma OnlyOneAbout(hs: seq<Hypothesis>, d: Domain)
    requires OnePerDomain(hs)
    ensures forall g, h :: g in hs && h in hs && g.domain == d && h.domain == d ==> g == h
  {
    forall g, h | g in hs && h in hs && g.domain == d && h.domain == d ensures g == h {
      NamedIsItself(hs, g);
      NamedIsItself(hs, h);
    }
  }
}
