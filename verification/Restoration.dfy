/** Proof that a fix held, the routing decision it feeds, and the closure record that demands it.
    Instants and windows are whole microseconds, scores and metrics exact reals, metric names ints
    standing for ordered strings. */
module Restoration {
  import opened Orders
  import opened Strings
  import opened Diagnosis

  datatype Action = RaiseMr | NodeLevelReset | OltPortReset | OtherAction(name: string)

  datatype Policy = Policy(
    windowMinutes: int, plantMinutes: int, minSamples: int, minReduction: real, confirmationDomains: set<Domain>)

  predicate ValidPolicy(p: Policy) {
    1 <= p.windowMinutes <= p.plantMinutes && p.minSamples >= 1 && 0.0 <= p.minReduction <= 1.0
  }

  type Metrics = map<int, real>

  /** One attempt at proving that a fix held. */
  datatype Attempt = Attempt(
    validatedAt: int, windowStart: int, domain: Domain, action: Option<Action>, samples: int,
    before: seq<Finding>, after: seq<Finding>,
    kpiBefore: Metrics, kpiAfter: Metrics, higherIsBetter: map<int, bool>, confirmed: Option<bool>)

  datatype Outcome = ValidationFailed | StabilityWindowPending | ValidatedStable

  datatype Validation = Validation(
    validatedAt: int, windowStart: int, window: int, samples: int, minSamples: int, passed: bool,
    improved: seq<int>, regressed: seq<int>, confirmed: Option<bool>, outcome: Outcome)
  {
    predicate WindowComplete() { validatedAt >= windowStart + window }
  }

  /** The record's field bounds and its validator. */
  predicate Recordable(v: Validation) {
    v.samples >= 0 && v.minSamples >= 1
    && (v.passed ==> v.window > 0 && v.samples >= v.minSamples && v.regressed == [])
  }

  const MINUTE := 60_000_000

  function StabilityWindow(action: Option<Action>, p: Policy): int {
    match action
    case Some(OtherAction(_)) => p.windowMinutes * MINUTE
    case _ => p.plantMinutes * MINUTE
  }

  // -- how much of the anomaly has gone ----------------------------------------------------------

  function MaxScore(fs: seq<Finding>): real
    requires fs != []
  {
    if |fs| == 1 then fs[0].score
    else
      var rest := MaxScore(fs[1..]);
      if fs[0].score > rest then fs[0].score else rest
  }

  function Peak(fs: seq<Finding>): real { if fs == [] then 0.0 else MaxScore(fs) }

  function AnomalyReduction(before: seq<Finding>, after: seq<Finding>): Option<real> {
    if Peak(before) <= 0.0 then None
    else
      var gone := (Peak(before) - Peak(after)) / Peak(before);
      var most := if 1.0 < gone then 1.0 else gone;
      Some(if 0.0 > most then 0.0 else most)
  }

  lemma {:induction false} PeakIsHighest(fs: seq<Finding>)
    requires fs != []
    ensures forall f :: f in fs ==> f.score <= Peak(fs)
    ensures exists f :: f in fs && f.score == Peak(fs)
  {
    assert fs == [fs[0]] + fs[1..];
    if |fs| == 1 {
      assert fs[0] in fs;
    } else {
      PeakIsHighest(fs[1..]);
      if fs[0].score > MaxScore(fs[1..]) {
        assert fs[0] in fs;
      } else {
        var f :| f in fs[1..] && f.score == Peak(fs[1..]);
        assert f in fs;
      }
    }
  }

  /** Scored something before the fix. */
  ghost predicate Scored(fs: seq<Finding>) { exists f :: f in fs && f.score > 0.0 }

  /** No finding left stands above `bound`; with no findings left, nothing scores 0. */
  ghost predicate AllWithin(fs: seq<Finding>, bound: real) {
    if fs == [] then 0.0 <= bound else forall f :: f in fs ==> f.score <= bound
  }

  lemma PeakWithin(fs: seq<Finding>, bound: real)
    ensures Peak(fs) <= bound <==> AllWithin(fs, bound)
  {
    if fs != [] { PeakIsHighest(fs); }
  }

  /** How much of the old peak may remain. */
  function Allowed(before: seq<Finding>, least: real): real { (1.0 - least) * Peak(before) }

  /** The criterion in terms of the findings: the anomaly has shrunk enough exactly when every
      remaining score is within the permitted part of the old peak. */
  lemma {:induction false} ReductionMeans(before: seq<Finding>, after: seq<Finding>, least: real)
    requires 0.0 <= least <= 1.0
    ensures AnomalyReduction(before, after).None? <==> !Scored(before)
    ensures AnomalyReduction(before, after).Some? ==>
      && 0.0 <= AnomalyReduction(before, after).value <= 1.0
      && (AnomalyReduction(before, after).value >= least <==>
           least == 0.0 || AllWithin(after, Allowed(before, least)))
  {
    hide MaxScore;
    if before != [] { PeakIsHighest(before); }
    if Peak(before) > 0.0 {
      PeakWithin(after, Allowed(before, least));
      var gone := (Peak(before) - Peak(after)) / Peak(before);
      QuotientBound(Peak(before), Peak(after), least);
    }
  }

  lemma QuotientBound(b: real, a: real, least: real)
    requires b > 0.0
    ensures (b - a) / b >= least <==> a <= (1.0 - least) * b
  {
    var q := (b - a) / b;
    assert q * b == b - a;
    ProductSign(q - least, b);
    assert (q - least) * b == b - a - least * b;
    assert (1.0 - least) * b == b - least * b;
  }

  // -- metrics -----------------------------------------------------------------------------------

  datatype Trend = Improved | Regressed | Undirected | Unmoved

  function TrendOf(before: real, after: real, direction: Option<bool>): Trend {
    if direction.None? then Undirected
    else if after == before then Unmoved
    else if (after > before) == direction.value then Improved
    else Regressed
  }

  function DirectionOf(directions: map<int, bool>, m: int): Option<bool> {
    if m in directions then Some(directions[m]) else None
  }

  /** The shared metrics with a given trend, in name order. */
  function Trending(before: Metrics, after: Metrics, directions: map<int, bool>, t: Trend): seq<int> {
    SortedSet(set m | m in before && m in after && TrendOf(before[m], after[m], DirectionOf(directions, m)) == t)
  }

  method CompareKpis(before: Metrics, after: Metrics, directions: map<int, bool>)
    returns (improved: seq<int>, regressed: seq<int>, undirected: seq<int>)
    ensures improved == Trending(before, after, directions, Improved)
    ensures regressed == Trending(before, after, directions, Regressed)
    ensures undirected == Trending(before, after, directions, Undirected)
  {
    hide PickedSoFar, SortedSet, Trending;
    improved, regressed, undirected := [], [], [];
    PickedNothing(before, after, directions, Improved);
    PickedNothing(before, after, directions, Regressed);
    PickedNothing(before, after, directions, Undirected);
    var metrics := SortedSet(before.Keys * after.Keys);
    var i := 0;
    while i < |metrics|
      invariant 0 <= i <= |metrics|
      invariant PickedSoFar(metrics[..i], before, after, directions, Improved, improved)
      invariant PickedSoFar(metrics[..i], before, after, directions, Regressed, regressed)
      invariant PickedSoFar(metrics[..i], before, after, directions, Undirected, undirected)
    {
      var m := metrics[i];
      assert m in metrics;
      var direction := DirectionOf(directions, m);
      Pick(metrics, i, before, after, directions, Improved, improved);
      Pick(metrics, i, before, after, directions, Regressed, regressed);
      Pick(metrics, i, before, after, directions, Undirected, undirected);
      if direction.None? {
        undirected := undirected + [m];
      } else {
        var delta := after[m] - before[m];
        if delta != 0.0 {
          if (delta > 0.0) == direction.value { improved := improved + [m]; } else { regressed := regressed + [m]; }
        }
      }
      i := i + 1;
    }
    assert metrics[..i] == metrics;
    PickedAll(metrics, before, after, directions, Improved, improved);
    PickedAll(metrics, before, after, directions, Regressed, regressed);
    PickedAll(metrics, before, after, directions, Undirected, undirected);
  }

  ghost predicate Ascending(xs: seq<int>) { forall i, j :: 0 <= i < j < |xs| ==> xs[i] < xs[j] }

  predicate IsTrend(m: int, before: Metrics, after: Metrics, directions: map<int, bool>, t: Trend) {
    m in before && m in after && TrendOf(before[m], after[m], DirectionOf(directions, m)) == t
  }

  ghost predicate PickedSoFar(
    seen: seq<int>, before: Metrics, after: Metrics, directions: map<int, bool>, t: Trend, picked: seq<int>)
  {
    && Ascending(picked)
    && forall m :: m in picked <==> m in seen && IsTrend(m, before, after, directions, t)
  }

  lemma Pick(
    metrics: seq<int>, i: nat, before: Metrics, after: Metrics, directions: map<int, bool>, t: Trend, picked: seq<int>)
    requires i < |metrics| && Ascending(metrics)
    requires PickedSoFar(metrics[..i], before, after, directions, t, picked)
    ensures PickedSoFar(metrics[..i + 1], before, after, directions, t,
      if IsTrend(metrics[i], before, after, directions, t) then picked + [metrics[i]] else picked)
  {
    hide IsTrend;
    assert metrics[..i + 1] == metrics[..i] + [metrics[i]];
    forall m | m in metrics[..i] ensures m < metrics[i] {
      var k :| 0 <= k < i && metrics[k] == m;
    }
    forall k | 0 <= k < |picked| ensures picked[k] < metrics[i] { assert picked[k] in picked; }
  }

  lemma PickedNothing(before: Metrics, after: Metrics, directions: map<int, bool>, t: Trend)
    ensures PickedSoFar([], before, after, directions, t, [])
  {
  }

  lemma PickedAll(
    metrics: seq<int>, before: Metrics, after: Metrics, directions: map<int, bool>, t: Trend, picked: seq<int>)
    requires forall m :: m in metrics <==> m in before && m in after
    requires PickedSoFar(metrics, before, after, directions, t, picked)
    ensures picked == Trending(before, after, directions, t)
  {
    AscendingIsUnique(picked, Trending(before, after, directions, t));
  }

  lemma {:induction false} AscendingIsUnique(xs: seq<int>, ys: seq<int>)
    requires Ascending(xs) && Ascending(ys) && forall x :: x in xs <==> x in ys
    ensures xs == ys
  {
    NoMembers(xs);
    NoMembers(ys);
    if xs != [] {
      LeastIsFirst(xs, ys);
      RestHasRest(xs);
      RestHasRest(ys);
      AscendingIsUnique(xs[1..], ys[1..]);
      assert xs == [xs[0]] + xs[1..] && ys == [ys[0]] + ys[1..];
    }
  }

  lemma LeastIsFirst(xs: seq<int>, ys: seq<int>)
    requires xs != [] && ys != [] && Ascending(xs) && Ascending(ys) && forall x :: x in xs <==> x in ys
    ensures xs[0] == ys[0]
  {
    assert xs[0] in ys && ys[0] in xs;
    var i :| 0 <= i < |ys| && ys[i] == xs[0];
    var j :| 0 <= j < |xs| && xs[j] == ys[0];
  }

  lemma RestHasRest(xs: seq<int>)
    requires xs != [] && Ascending(xs)
    ensures forall x :: x in xs[1..] <==> x in xs && x != xs[0]
  {
    assert xs == [xs[0]] + xs[1..];
  }

  /** The three lists of a comparison sort the shared metrics: improved where a given direction and the move
      agree, regressed where they do not, undirected where none was given; what did not move is in none. */
  lemma TrendsMean(before: Metrics, after: Metrics, directions: map<int, bool>, m: int)
    requires m in before && m in after
    ensures m in Trending(before, after, directions, Undirected) <==> m !in directions
    ensures m in directions ==>
      && (m in Trending(before, after, directions, Improved) <==>
           if directions[m] then after[m] > before[m] else after[m] < before[m])
      && (m in Trending(before, after, directions, Regressed) <==>
           if directions[m] then after[m] < before[m] else after[m] > before[m])
    ensures m !in directions ==>
      m !in Trending(before, after, directions, Improved) && m !in Trending(before, after, directions, Regressed)
  {
  }

  lemma OnlySharedTrend(before: Metrics, after: Metrics, directions: map<int, bool>, t: Trend, m: int)
    ensures m in Trending(before, after, directions, t) ==> m in before && m in after
  {
  }

  // -- validation --------------------------------------------------------------------------------

  predicate AnomalyCleared(p: Policy, a: Attempt) {
    var reduction := AnomalyReduction(a.before, a.after);
    reduction.None? || reduction.value >= p.minReduction
  }

  ghost predicate NothingRegressed(a: Attempt) {
    forall m :: m in a.kpiBefore && m in a.kpiAfter && m in a.higherIsBetter ==>
      if a.higherIsBetter[m] then a.kpiAfter[m] >= a.kpiBefore[m] else a.kpiAfter[m] <= a.kpiBefore[m]
  }

  predicate Observed(p: Policy, a: Attempt) {
    a.validatedAt >= a.windowStart + StabilityWindow(a.action, p) && a.samples >= p.minSamples
  }

  predicate MustConfirm(p: Policy, a: Attempt) { a.domain in p.confirmationDomains }

  predicate Denied(p: Policy, a: Attempt) { MustConfirm(p, a) && a.confirmed == Some(false) }

  predicate Unanswered(p: Policy, a: Attempt) { MustConfirm(p, a) && a.confirmed == None }

  ghost predicate Failing(p: Policy, a: Attempt) {
    !AnomalyCleared(p, a) || !NothingRegressed(a) || Denied(p, a)
  }

  /** What the record of an attempt says. */
  ghost function Validated(p: Policy, a: Attempt): Validation {
    var outcome :=
      if Failing(p, a) then ValidationFailed
      else if !Observed(p, a) || Unanswered(p, a) then StabilityWindowPending
      else ValidatedStable;
    Validation(a.validatedAt, a.windowStart, StabilityWindow(a.action, p), a.samples, p.minSamples,
      outcome == ValidatedStable,
      Trending(a.kpiBefore, a.kpiAfter, a.higherIsBetter, Improved),
      Trending(a.kpiBefore, a.kpiAfter, a.higherIsBetter, Regressed),
      a.confirmed, outcome)
  }

  datatype Failure = ReductionShort | MetricsRegressed(metrics: seq<int>) | CustomerDenied

  /** Builds the record, or nothing when the record refuses its own contents. */
  method ValidateRestoration(p: Policy, a: Attempt) returns (v: Option<Validation>)
    ensures v == if Recordable(Validated(p, a)) then Some(Validated(p, a)) else None
  {
    hide AnomalyReduction, Trending, StabilityWindow;
    var window := StabilityWindow(a.action, p);
    var improved, regressed, undirected := CompareKpis(a.kpiBefore, a.kpiAfter, a.higherIsBetter);
    RegressedMeans(a);
    var reduction := AnomalyReduction(a.before, a.after);
    var windowComplete := a.validatedAt >= a.windowStart + window;
    var pending := !windowComplete || a.samples < p.minSamples;
    var failures: seq<Failure> := [];
    if reduction.Some? && reduction.value < p.minReduction { failures := failures + [ReductionShort]; }
    if regressed != [] { failures := failures + [MetricsRegressed(regressed)]; }
    if a.domain in p.confirmationDomains {
      if a.confirmed == Some(false) {
        failures := failures + [CustomerDenied];
      } else if a.confirmed == None {
        pending := true;
      }
    }
    var passed, outcome;
    if failures != [] {
      passed, outcome := false, ValidationFailed;
    } else if pending {
      passed, outcome := false, StabilityWindowPending;
    } else {
      passed, outcome := true, ValidatedStable;
    }
    var record := Validation(a.validatedAt, a.windowStart, window, a.samples, p.minSamples, passed,
      improved, regressed, a.confirmed, outcome);
    v := if Recordable(record) then Some(record) else None;
  }

  /** The regressed list is empty exactly when no directed, shared metric moved the wrong way. */
  lemma RegressedMeans(a: Attempt)
    ensures Trending(a.kpiBefore, a.kpiAfter, a.higherIsBetter, Regressed) == [] <==> NothingRegressed(a)
  {
    var regressed := Trending(a.kpiBefore, a.kpiAfter, a.higherIsBetter, Regressed);
    NoMembers(regressed);
    forall m ensures m in regressed <==>
        && m in a.kpiBefore && m in a.kpiAfter && m in a.higherIsBetter
        && !(if a.higherIsBetter[m] then a.kpiAfter[m] >= a.kpiBefore[m] else a.kpiAfter[m] <= a.kpiBefore[m])
    {
    }
  }

  lemma PassedMeans(p: Policy, a: Attempt)
    ensures Validated(p, a).passed <==>
      Observed(p, a) && AnomalyCleared(p, a) && NothingRegressed(a) && (MustConfirm(p, a) ==> a.confirmed == Some(true))
  {
    hide AnomalyCleared, Trending, StabilityWindow, NothingRegressed;
    if a.confirmed.Some? {
      if a.confirmed.value { assert a.confirmed == Some(true); } else { assert a.confirmed == Some(false); }
    }
  }

  /** An attempt passes exactly when all five criteria hold. */
  lemma PassesIff(p: Policy, a: Attempt)
    requires ValidPolicy(p)
    ensures Validated(p, a).passed <==>
      && a.validatedAt - a.windowStart >= StabilityWindow(a.action, p)
      && a.samples >= p.minSamples
      && (Scored(a.before) && p.minReduction > 0.0 ==> AllWithin(a.after, Allowed(a.before, p.minReduction)))
      && NothingRegressed(a)
      && (a.domain in p.confirmationDomains ==> a.confirmed == Some(true))
    ensures Validated(p, a).passed <==> Validated(p, a).outcome == ValidatedStable
  {
    hide AnomalyReduction, Trending, StabilityWindow, AllWithin, Scored, NothingRegressed, Peak, Allowed;
    ReductionMeans(a.before, a.after, p.minReduction);
    PassedMeans(p, a);
  }

  /** The record is refused exactly when its sample counts are out of range or a pass rests on a
      window of no length; a policy with positive windows never meets the second case. */
  lemma RefusedIff(p: Policy, a: Attempt)
    ensures !Recordable(Validated(p, a)) <==>
      a.samples < 0 || p.minSamples < 1 || (Validated(p, a).passed && StabilityWindow(a.action, p) <= 0)
    ensures ValidPolicy(p) ==> (Recordable(Validated(p, a)) <==> a.samples >= 0)
  {
  }

  /** An unrecorded action is observed for as long as a plant repair, which is never the shorter. */
  lemma UnknownFixesWaitLongest(p: Policy, action: Option<Action>)
    requires ValidPolicy(p)
    ensures 0 < StabilityWindow(action, p) <= StabilityWindow(None, p)
    ensures action in {None, Some(RaiseMr), Some(NodeLevelReset), Some(OltPortReset)} ==>
      StabilityWindow(action, p) == p.plantMinutes * MINUTE
    ensures action !in {None, Some(RaiseMr), Some(NodeLevelReset), Some(OltPortReset)} ==>
      StabilityWindow(action, p) == p.windowMinutes * MINUTE
  {
  }

  // -- the routing decisions ---------------------------------------------------------------------

  datatype StabilityRoute = ContinueObservation | RetryDiagnosis | ConfirmOutcome

  function RouteStability(v: Option<Validation>): StabilityRoute {
    if v.None? then ContinueObservation
    else if v.value.passed then ConfirmOutcome
    else if v.value.regressed != [] then RetryDiagnosis
    else if !v.value.WindowComplete() then ContinueObservation
    else RetryDiagnosis
  }

  datatype ResolutionRoute = Reconcile | BackToDiagnosis

  function RouteResolution(v: Option<Validation>): ResolutionRoute {
    if v.None? then BackToDiagnosis
    else if v.value.confirmed == Some(false) then BackToDiagnosis
    else if v.value.passed then Reconcile
    else BackToDiagnosis
  }

  /** Where an attempt goes, exactly: confirmed iff it passed; observed further iff the window is
      still open and nothing regressed; otherwise, pending answers included, diagnosed again. */
  lemma StabilitySplit(p: Policy, a: Attempt)
    ensures var route := RouteStability(Some(Validated(p, a)));
      var open := a.validatedAt - a.windowStart < StabilityWindow(a.action, p);
      && (route == ConfirmOutcome <==> Validated(p, a).passed)
      && (route == ContinueObservation <==> open && NothingRegressed(a))
      && (route == RetryDiagnosis <==> !Validated(p, a).passed && (!open || !NothingRegressed(a)))
  {
    hide AnomalyCleared, Trending;
    RegressedMeans(a);
  }

  /** With no record at all the incident is observed further and never closed on. */
  lemma NoRecordClosesNothing()
    ensures RouteStability(None) == ContinueObservation && RouteResolution(None) == BackToDiagnosis
  {
  }

  /** Any record, however it came about: confirmed iff it passed, and reconciled iff it passed and the
      customer did not deny it. */
  lemma RoutesNeedAPass(v: Validation)
    ensures RouteStability(Some(v)) == ConfirmOutcome <==> v.passed
    ensures RouteStability(Some(v)) == ContinueObservation <==>
      !v.passed && v.regressed == [] && v.validatedAt < v.windowStart + v.window
    ensures RouteResolution(Some(v)) == Reconcile <==> v.passed && v.confirmed != Some(false)
  {
  }

  /** The two places where the route and the recorded outcome part ways. A pending record is sent
      back to diagnosis exactly when its window has closed but its samples or its customer's answer
      are still missing; a failed record is observed further exactly when its window is open and it
      failed on something other than a regression. */
  lemma RouteAndOutcomeDiffer(p: Policy, a: Attempt)
    ensures var v := Validated(p, a);
      && (v.outcome == StabilityWindowPending && RouteStability(Some(v)) == RetryDiagnosis <==>
           && !Failing(p, a) && v.WindowComplete() && (a.samples < p.minSamples || Unanswered(p, a)))
      && (v.outcome == ValidationFailed && RouteStability(Some(v)) == ContinueObservation <==>
           NothingRegressed(a) && !v.WindowComplete() && (!AnomalyCleared(p, a) || Denied(p, a)))
  {
    hide AnomalyReduction, Trending, NothingRegressed;
    RegressedMeans(a);
  }

  /** Attempts at one fix, each at least `gap` after the one before, the first not before the window. */
  ghost predicate Looks(attempts: seq<Attempt>, gap: int) {
    && gap >= 1
    && (forall i :: 0 <= i < |attempts| ==>
         attempts[i].windowStart == attempts[0].windowStart && attempts[i].action == attempts[0].action)
    && (forall i :: 0 <= i < |attempts| - 1 ==> attempts[i].validatedAt + gap <= attempts[i + 1].validatedAt)
    && (attempts != [] ==> attempts[0].validatedAt >= attempts[0].windowStart)
  }

  ghost predicate Observes(p: Policy, a: Attempt) { RouteStability(Some(Validated(p, a))) == ContinueObservation }

  lemma {:induction false} LooksAreSpaced(attempts: seq<Attempt>, gap: int, j: nat, k: nat)
    requires Looks(attempts, gap) && j <= k < |attempts|
    ensures attempts[k].validatedAt >= attempts[j].validatedAt + (k - j) * gap
    decreases k
  {
    if j < k {
      LooksAreSpaced(attempts, gap, j, k - 1);
      assert attempts[k - 1].validatedAt + gap <= attempts[k - 1 + 1].validatedAt;
      assert (k - j) * gap == (k - 1 - j) * gap + gap;
    }
  }

  /** Observing ends: of looks spaced by `gap` only those numbered below the window's length over the gap
      are sent back to observation, so there are at most that many, and a look whose window has closed
      is followed by none that is observed again. */
  lemma ObservationEnds(p: Policy, attempts: seq<Attempt>, gap: int, k: nat)
    requires Looks(attempts, gap) && k < |attempts|
    ensures Observes(p, attempts[k]) ==> k * gap < StabilityWindow(attempts[0].action, p)
    ensures attempts[k].validatedAt >= attempts[0].windowStart + StabilityWindow(attempts[0].action, p) ==>
      forall j :: k <= j < |attempts| ==> !Observes(p, attempts[j])
  {
    hide StabilityWindow, Validated, AnomalyCleared;
    LooksAreSpaced(attempts, gap, 0, k);
    StabilitySplit(p, attempts[k]);
    forall j | k <= j < |attempts| && attempts[k].validatedAt >= attempts[0].windowStart + StabilityWindow(attempts[0].action, p)
      ensures !Observes(p, attempts[j])
    {
      LooksAreSpaced(attempts, gap, k, j);
      NeverNegative(j - k, gap);
      StabilitySplit(p, attempts[j]);
    }
  }

  lemma NeverNegative(n: nat, gap: int)
    requires gap >= 1
    ensures n * gap >= n
  {
  }

  /** The record's own validator does not look at the instant: a pass before the window's end is
      recordable, and would be confirmed. Only the way records are made rules it out. */
  lemma ValidatorAcceptsAnEarlyPass()
    ensures exists v: Validation :: Recordable(v) && !v.WindowComplete() && RouteStability(Some(v)) == ConfirmOutcome
  {
    var v := Validation(0, 0, 60 * MINUTE, 2, 2, true, [], [], None, ValidatedStable);
    assert Recordable(v) && !v.WindowComplete();
  }

  // -- closure -----------------------------------------------------------------------------------

  datatype ClosureCode = ClosedNormal | ClosedExceptional | ClosedDuplicate | OtherCode(name: string)

  datatype Closure = Closure(
    code: ClosureCode, resolution: string, validation: Option<Validation>, approvalRef: Option<string>, reason: string,
    counts: seq<int>)

  /** The closure record's field bounds and its two validators. */
  predicate Closable(c: Closure) {
    && Written(c.resolution) && (forall i :: 0 <= i < |c.counts| ==> c.counts[i] >= 0)
    && (c.validation.Some? ==> Recordable(c.validation.value))
    && (c.code == ClosedNormal ==> c.validation.Some? && c.validation.value.passed)
    && (c.code == ClosedExceptional ==> c.approvalRef.Some? && Written(c.approvalRef.value) && Written(c.reason))
  }

  ghost predicate Proven(c: Closure) { c.validation.Some? && c.validation.value.passed }

  ghost predicate Signed(c: Closure) { c.approvalRef.Some? && Written(c.approvalRef.value) && Written(c.reason) }

  /** Proof before closure holds for exactly two codes: every record that can be built under any
      other code may lack both the proof and the signature. */
  lemma ProofBeforeClosureIff(code: ClosureCode)
    ensures (forall c :: Closable(c) && c.code == code ==> Proven(c) || Signed(c)) <==>
      code == ClosedNormal || code == ClosedExceptional
  {
    var bare := Closure(code, "done", None, None, "", []);
    assert !Space('d') && "done"[0] == 'd';
    WrittenIff("done");
    hide Written;
    if code != ClosedNormal && code != ClosedExceptional {
      assert Closable(bare) && !Proven(bare) && !Signed(bare);
    }
  }

  /** From measurement to closure: a normal closure resting on this attempt can be built exactly when
      the attempt was observed for its whole window with enough samples, its anomaly cleared, no
      metric regressed and any required confirmation was given, which is exactly when the stability
      decision confirms it. */
  lemma NormalClosureHasProof(p: Policy, a: Attempt, c: Closure)
    requires ValidPolicy(p) && a.samples >= 0
    requires c.code == ClosedNormal && c.validation == Some(Validated(p, a))
    requires Written(c.resolution) && forall i :: 0 <= i < |c.counts| ==> c.counts[i] >= 0
    ensures Closable(c) <==>
      Observed(p, a) && AnomalyCleared(p, a) && NothingRegressed(a) && (MustConfirm(p, a) ==> a.confirmed == Some(true))
    ensures Closable(c) <==> RouteStability(c.validation) == ConfirmOutcome
    ensures RouteResolution(c.validation) == Reconcile <==> Closable(c) && a.confirmed != Some(false)
    ensures MustConfirm(p, a) ==>
      (RouteResolution(c.validation) == Reconcile <==> RouteStability(c.validation) == ConfirmOutcome)
  {
    hide AnomalyReduction, AnomalyCleared, Trending, NothingRegressed, StabilityWindow;
    RefusedIff(p, a);
    RegressedMeans(a);
    PassedMeans(p, a);
  }
}
