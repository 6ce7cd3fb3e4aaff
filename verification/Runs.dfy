/** The bounded-loop guard over whole runs: every entry counts once, refused entries stop the graph. */
module Runs {
  import opened Orders
  import opened Lifecycle
  import Reducers
  import opened Chains
  import opened Topology

  type State = Reducers.State

  // -- counting visits ---------------------------------------------------------------------------

  ghost function SumOf(m: map<string, int>): int
    decreases m.Keys
  {
    if m.Keys == {} then 0
    else
      assert (forall k :: k !in m.Keys) ==> m.Keys == {};
      var k :| k in m.Keys;
      m[k] + SumOf(m - {k})
  }

  lemma {:induction false} SumWithout(m: map<string, int>, k: string)
    requires k in m
    ensures SumOf(m) == m[k] + SumOf(m - {k})
    decreases m.Keys
  {
    assert (forall k :: k !in m.Keys) ==> m.Keys == {};
    var first :| first in m.Keys && SumOf(m) == m[first] + SumOf(m - {first});
    if first != k {
      SumWithout(m - {first}, k);
      SumWithout(m - {k}, first);
      assert m - {first} - {k} == m - {k} - {first};
    }
  }

  lemma SumUpdate(m: map<string, int>, k: string, v: int)
    ensures SumOf(m[k := v]) == SumOf(m) - Reducers.Get(m, k, 0) + v
  {
    SumWithout(m[k := v], k);
    if k in m {
      SumWithout(m, k);
      assert m[k := v] - {k} == m - {k};
    } else {
      assert m[k := v] - {k} == m;
    }
  }

  const VISITS := "node_visits"

  function VisitsIn(s: State): map<string, int> { Reducers.Get(s.maxima, VISITS, map[]) }
  function VisitCount(s: State, node: Name): int { Reducers.Get(VisitsIn(s), node, 0) }
  ghost function TotalSteps(s: State): int { SumOf(VisitsIn(s)) }

  /** The partial update that records a visit: an absolute count, not an increment. */
  function BumpVisit(s: State, node: Name): map<string, int> { map[node := VisitCount(s, node) + 1] }

  // -- the budgets -------------------------------------------------------------------------------

  datatype Kind = StepsSpent | ReentriesSpent | DiagnosticSpent | ResolutionSpent
  datatype Owner = SettingsSteps | StepOverride | PackSteps | PackReentries | NodeOverride | SettingsDiagnostic | SettingsResolution
  datatype Verdict = Within | Spent(kind: Kind, observed: int, limit: int, owner: Owner)

  datatype Context = Context(
    stepOverride: Option<int>, settingsSteps: int, packSteps: int, packReentries: int,
    visitBudget: map<Name, int>, maxDiagnostic: int, maxResolution: int)
  {
    /** `override or setting`: an override of zero falls through to the setting. */
    function MaxGraphSteps(): int {
      if stepOverride.Some? && stepOverride.value != 0 then stepOverride.value else settingsSteps
    }
  }

  function StepBudget(ctx: Context): (int, Owner) {
    if ctx.MaxGraphSteps() <= ctx.packSteps
    then (ctx.MaxGraphSteps(), if ctx.stepOverride.None? then SettingsSteps else StepOverride)
    else (ctx.packSteps, PackSteps)
  }

  function ReentryBudget(ctx: Context, node: Name): (int, Owner) {
    if node in ctx.visitBudget then (ctx.visitBudget[node], NodeOverride) else (ctx.packReentries, PackReentries)
  }

  function CounterOf(s: State, name: string): int { Reducers.Get(s.counters, name, 0) }

  ghost function CheckBudgets(s: State, ctx: Context, node: Name): Verdict {
    var (steps, stepsOwner) := StepBudget(ctx);
    var (entries, entriesOwner) := ReentryBudget(ctx, node);
    var diagnostic, resolution := CounterOf(s, "diagnostic_cycles"), CounterOf(s, "resolution_cycles");
    if TotalSteps(s) >= steps then Spent(StepsSpent, TotalSteps(s), steps, stepsOwner)
    else if VisitCount(s, node) >= entries then Spent(ReentriesSpent, VisitCount(s, node), entries, entriesOwner)
    else if diagnostic >= ctx.maxDiagnostic then Spent(DiagnosticSpent, diagnostic, ctx.maxDiagnostic, SettingsDiagnostic)
    else if resolution >= ctx.maxResolution then Spent(ResolutionSpent, resolution, ctx.maxResolution, SettingsResolution)
    else Within
  }

  /** Whether a step owner's own number is the limit. */
  predicate Carries(ctx: Context, owner: Owner, limit: int) {
    match owner
    case SettingsSteps => ctx.settingsSteps == limit
    case StepOverride => ctx.stepOverride == Some(limit)
    case PackSteps => ctx.packSteps == limit
    case _ => false
  }

  /** The owner an escalation names is one a reader can find the limit at, except exactly when an
      override of zero fell through to the settings and the settings bind. */
  lemma OwnerNamesTheLimitIff(ctx: Context)
    ensures Carries(ctx, StepBudget(ctx).1, StepBudget(ctx).0) <==>
      !(ctx.stepOverride == Some(0) && ctx.settingsSteps <= ctx.packSteps && ctx.settingsSteps != 0)
  {
  }

  /** How many entries of a node are on record. */
  ghost predicate Visited(s: State, node: Name, n: int) {
    if VISITS in s.maxima && node in s.maxima[VISITS] then n == s.maxima[VISITS][node] else n == 0
  }

  /** A loop counter has not reached its limit, an unset one standing at zero. */
  ghost predicate Under(s: State, counter: string, limit: int) {
    if counter in s.counters then s.counters[counter] < limit else 0 < limit
  }

  /** A node's entries are under its own ceiling where it has one, looser or tighter, and else the pack's. */
  ghost predicate MayReenter(ctx: Context, node: Name, n: int) {
    if node in ctx.visitBudget then n < ctx.visitBudget[node] else n < ctx.packReentries
  }

  /** The tighter of the two step owners binds, and a passing verdict clears all five bounds. A failing one
      names the widest bound that is spent, with what was observed of it. */
  lemma VerdictMeans(s: State, ctx: Context, node: Name, visits: int)
    requires Visited(s, node, visits)
    ensures StepBudget(ctx).0 <= ctx.MaxGraphSteps() && StepBudget(ctx).0 <= ctx.packSteps
    ensures StepBudget(ctx).0 == ctx.MaxGraphSteps() || StepBudget(ctx).0 == ctx.packSteps
    ensures var v := CheckBudgets(s, ctx, node);
      var stepsLeft := TotalSteps(s) < ctx.MaxGraphSteps() && TotalSteps(s) < ctx.packSteps;
      var mayReenter := MayReenter(ctx, node, visits);
      var mayDiagnose, mayResolve := Under(s, "diagnostic_cycles", ctx.maxDiagnostic), Under(s, "resolution_cycles", ctx.maxResolution);
      && (v.Within? <==> stepsLeft && mayReenter && mayDiagnose && mayResolve)
      && (v.Spent? ==>
           && (v.kind == StepsSpent <==> !stepsLeft)
           && (v.kind == ReentriesSpent <==> stepsLeft && !mayReenter)
           && (v.kind == DiagnosticSpent <==> stepsLeft && mayReenter && !mayDiagnose)
           && (v.kind == StepsSpent ==> v.observed == TotalSteps(s)) && (v.kind == ReentriesSpent ==> v.observed == visits)
           && v.observed >= v.limit)
  {
    hide TotalSteps;
  }

  // -- one entry ---------------------------------------------------------------------------------

  /** One node entry: what its body would return, the audit record an escalation would carry, and how
      often the runtime merges the update again. */
  datatype Entry = Entry(node: Name, body: State, audit: Reducers.Item, replays: nat)

  const ESCALATED_FLAG := "escalated"

  predicate IsEscalated(s: State) { ESCALATED_FLAG in s.plain && s.plain[ESCALATED_FLAG] == "true" }

  function EscalationUpdate(audit: Reducers.Item): State {
    Reducers.UNSET.(status := Some(Escalated), uniques := map["audit_events" := [audit]],
      plain := map[ESCALATED_FLAG := "true", "escalation_reason" := "budget exhausted"])
  }

  /** What the `@node` wrapper returns: the guard first, the visit count always and last. */
  ghost function UpdateOf(s: State, ctx: Context, e: Entry): State {
    var base := if CheckBudgets(s, ctx, e.node).Within? then e.body else EscalationUpdate(e.audit);
    base.(maxima := base.maxima[VISITS := BumpVisit(s, e.node)])
  }

  ghost predicate Enters(s: State, ctx: Context, e: Entry, next: State) {
    Reducers.Mergeable(s, UpdateOf(s, ctx, e)) && Reducers.MergedTimes(s, UpdateOf(s, ctx, e), e.replays + 1, next)
  }

  lemma EntersOnce(s: State, ctx: Context, e: Entry, next: State)
    requires Enters(s, ctx, e, next)
    ensures next == Reducers.Merged(s, UpdateOf(s, ctx, e))
  {
    hide UpdateOf, Reducers.Merged, Reducers.Mergeable;
    Reducers.AnyNumberOfReplays(s, UpdateOf(s, ctx, e), e.replays + 1, next);
  }

  /** However often its update is merged, an entry raises its own node's count by one and no other,
      so the total grows by exactly one. */
  lemma {:induction false} EntryCountsOnce(s: State, ctx: Context, e: Entry, next: State)
    requires Enters(s, ctx, e, next) && VisitCount(s, e.node) >= 0
    ensures VisitsIn(next) == VisitsIn(s)[e.node := VisitCount(s, e.node) + 1]
    ensures TotalSteps(next) == TotalSteps(s) + 1
    ensures forall n :: n != e.node ==> VisitCount(next, n) == VisitCount(s, n)
  {
    hide SumOf, UpdateOf, Reducers.Merged;
    EntersOnce(s, ctx, e, next);
    VisitsAreBumped(s, ctx, e);
    VisitsMerge(s, UpdateOf(s, ctx, e));
    BumpIsOneMore(VisitsIn(s), e.node);
    SumUpdate(VisitsIn(s), e.node, VisitCount(s, e.node) + 1);
  }

  lemma VisitsAreBumped(s: State, ctx: Context, e: Entry)
    ensures VISITS in UpdateOf(s, ctx, e).maxima && UpdateOf(s, ctx, e).maxima[VISITS] == BumpVisit(s, e.node)
  {
    hide CheckBudgets;
  }

  lemma VisitsMerge(s: State, u: State)
    requires Reducers.Mergeable(s, u) && VISITS in u.maxima
    ensures VisitsIn(Reducers.Merged(s, u)) == Reducers.MergeMax(VisitsIn(s), u.maxima[VISITS])
  {
    hide Reducers.MergeLists, Reducers.MergeDicts, Reducers.MergeMax;
  }

  lemma BumpIsOneMore(visits: map<string, int>, node: Name)
    requires Reducers.Get(visits, node, 0) >= 0
    ensures Reducers.MergeMax(visits, map[node := Reducers.Get(visits, node, 0) + 1]) == visits[node := Reducers.Get(visits, node, 0) + 1]
  {
  }

  /** A refused entry leaves the escalation flag up. */
  lemma RefusalRaisesTheFlag(s: State, ctx: Context, e: Entry, next: State)
    requires Enters(s, ctx, e, next) && CheckBudgets(s, ctx, e.node).Spent?
    ensures IsEscalated(next) && next.status == Some(Escalated)
  {
  }

  /** A refused entry's update is accepted by the reducers exactly when the incident is unfinished. */
  lemma {:induction false} RefusalMergesIff(s: State, ctx: Context, e: Entry)
    requires CheckBudgets(s, ctx, e.node).Spent?
    ensures Reducers.Mergeable(s, UpdateOf(s, ctx, e)) <==> s.status.None? || !IsTerminal(s.status.value)
  {
    hide CheckBudgets;
    if s.status.Some? { EscalationIsLegalIff(s.status.value); }
  }

  /** An accepted entry writes its body and its visit, and nothing else: on every channel but the visits the
      state is what merging the body alone would leave. */
  lemma AcceptedWritesItsBody(s: State, ctx: Context, e: Entry, next: State)
    requires Enters(s, ctx, e, next) && CheckBudgets(s, ctx, e.node).Within?
    ensures Reducers.Mergeable(s, e.body)
    ensures var alone := Reducers.Merged(s, e.body);
      && next.(maxima := alone.maxima) == alone
      && forall k :: k != VISITS ==>
           (k in next.maxima <==> k in alone.maxima) && (k in alone.maxima ==> next.maxima[k] == alone.maxima[k])
  {
    hide CheckBudgets, Reducers.MergeLists, Reducers.MergeDicts, Reducers.MergeMax, BumpVisit, CanTransition;
    EntersOnce(s, ctx, e, next);
  }

  /** A refused entry writes its escalation on the audit trail, unless one under its key is there. */
  lemma RefusalIsAudited(s: State, ctx: Context, e: Entry, next: State)
    requires Enters(s, ctx, e, next) && CheckBudgets(s, ctx, e.node).Spent?
    ensures "audit_events" in next.uniques && Reducers.NaturalKey(e.audit) in Reducers.KeysOf(next.uniques["audit_events"])
  {
    hide CheckBudgets, Reducers.Merged, Reducers.Mergeable, Reducers.MergedTimes, Reducers.NaturalKey, BumpVisit;
    EntersOnce(s, ctx, e, next);
    EntersMerges(s, ctx, e, next);
    var u := UpdateOf(s, ctx, e);
    assert u.uniques == map["audit_events" := [e.audit]];
    Reducers.RecordsAreKept(s, u, "audit_events", e.audit);
  }

  lemma EntersMerges(s: State, ctx: Context, e: Entry, next: State)
    requires Enters(s, ctx, e, next)
    ensures Reducers.Mergeable(s, UpdateOf(s, ctx, e))
  {
  }

  /** Every entry moves the status as the tables allow, or leaves it. */
  lemma EveryMoveIsLegal(s: State, ctx: Context, e: Entry, next: State)
    requires Enters(s, ctx, e, next) && s.status.Some?
    ensures next.status.Some? && CanTransition(s.status.value, next.status.value)
  {
    hide UpdateOf, Reducers.MergeLists, Reducers.MergeDicts, Reducers.MergeMaxima, Reducers.MergeMax;
    EntersOnce(s, ctx, e, next);
    EntersMerges(s, ctx, e, next);
    MoveIsLegal(s, UpdateOf(s, ctx, e));
  }

  lemma MoveIsLegal(s: State, u: State)
    requires Reducers.Mergeable(s, u) && s.status.Some?
    ensures Reducers.Merged(s, u).status.Some? && CanTransition(s.status.value, Reducers.Merged(s, u).status.value)
  {
    hide Reducers.MergeLists, Reducers.MergeDicts, Reducers.MergeMaxima, Reducers.MergeMax, Transitions;
  }

  // -- runs --------------------------------------------------------------------------------------

  ghost predicate Run(ctx: Context, states: seq<State>, entries: seq<Entry>) {
    && |states| == |entries| + 1
    && (forall n :: VisitCount(states[0], n) >= 0)
    && forall i :: 0 <= i < |entries| ==> Enters(states[i], ctx, entries[i], states[i + 1])
  }

  function EntriesOf(entries: seq<Entry>, node: Name): nat {
    if entries == [] then 0
    else EntriesOf(entries[..|entries| - 1], node) + if entries[|entries| - 1].node == node then 1 else 0
  }

  lemma {:induction false} CountsMatchEntries(ctx: Context, states: seq<State>, entries: seq<Entry>, i: nat)
    requires Run(ctx, states, entries) && i <= |entries|
    ensures TotalSteps(states[i]) == TotalSteps(states[0]) + i
    ensures forall n :: VisitCount(states[i], n) == VisitCount(states[0], n) + EntriesOf(entries[..i], n)
  {
    hide Enters, TotalSteps, VisitCount;
    if i > 0 {
      CountsMatchEntries(ctx, states, entries, i - 1);
      assert entries[..i][..i - 1] == entries[..i - 1];
      assert Enters(states[i - 1], ctx, entries[i - 1], states[i]);
      OneMore(states[i - 1], ctx, entries[i - 1], states[i]);
    }
  }

  lemma OneMore(s: State, ctx: Context, e: Entry, next: State)
    requires Enters(s, ctx, e, next) && VisitCount(s, e.node) >= 0
    ensures TotalSteps(next) == TotalSteps(s) + 1
    ensures forall n :: VisitCount(next, n) == VisitCount(s, n) + if n == e.node then 1 else 0
  {
    hide Enters;
    EntryCountsOnce(s, ctx, e, next);
  }

  /** The statuses a run shows, from the first that is set, are a legal status run. */
  lemma RunStatusesAreLegal(ctx: Context, states: seq<State>, entries: seq<Entry>)
    requires Run(ctx, states, entries) && states[0].status.Some?
    ensures forall i :: 0 <= i < |states| ==> states[i].status.Some?
    ensures StatusRun(seq(|states|, i requires 0 <= i < |states| && states[i].status.Some? => states[i].status.value))
  {
    hide Enters, VisitCount, CanTransition;
    StatusesStay(ctx, states, entries, |entries|);
    var run := seq(|states|, i requires 0 <= i < |states| && states[i].status.Some? => states[i].status.value);
    forall i | 0 <= i < |run| - 1 ensures CanTransition(run[i], run[i + 1]) {
      assert Enters(states[i], ctx, entries[i], states[i + 1]);
      EveryMoveIsLegal(states[i], ctx, entries[i], states[i + 1]);
    }
  }

  lemma {:induction false} StatusesStay(ctx: Context, states: seq<State>, entries: seq<Entry>, n: nat)
    requires Run(ctx, states, entries) && states[0].status.Some? && n <= |entries|
    ensures forall i :: 0 <= i <= n ==> states[i].status.Some?
  {
    hide Enters, VisitCount, CanTransition;
    if n > 0 {
      StatusesStay(ctx, states, entries, n - 1);
      assert Enters(states[n - 1], ctx, entries[n - 1], states[n - 1 + 1]);
      EveryMoveIsLegal(states[n - 1], ctx, entries[n - 1], states[n]);
    }
  }

  /** An accepted entry is one of the first `limit` entries of its run and one of the first `limit`
      entries of its node, for both step owners and the node's own ceiling. */
  lemma AcceptedEntriesAreBounded(ctx: Context, states: seq<State>, entries: seq<Entry>, i: nat)
    requires Run(ctx, states, entries) && i < |entries|
    requires CheckBudgets(states[i], ctx, entries[i].node).Within?
    ensures TotalSteps(states[0]) + i < ctx.MaxGraphSteps() && TotalSteps(states[0]) + i < ctx.packSteps
    ensures MayReenter(ctx, entries[i].node, VisitCount(states[0], entries[i].node) + EntriesOf(entries[..i], entries[i].node))
  {
    hide Enters, CheckBudgets;
    CountsMatchEntries(ctx, states, entries, i);
    VerdictMeans(states[i], ctx, entries[i].node, VisitCount(states[i], entries[i].node));
  }

  // -- runs of the built graph -------------------------------------------------------------------

  /** The edges as built: right, one per node. */
  ghost predicate Built(t: Tables, exits: seq<Exit>) {
    && WellFormed(t) && Accepted(t) && Good(t, exits)
    && forall n :: IsNode(t, n) ==> exists i :: 0 <= i < |exits| && exits[i].source == n
  }

  /** Where `next` is sent from `node`: some exit of the node, read with the state's flag and answers. */
  ghost predicate Moves(t: Tables, exits: seq<Exit>, node: Name, s: State, ask: Name -> Name, to: Name) {
    && AnswersDeclared(t.branch, ask)
    && exists i ::
      && 0 <= i < |exits| && exits[i].source == node
      && (exits[i].router.CascadeFrom? ==> exits[i].router.head in t.branch && !LoopsFrom(t.branch, exits[i].router.head))
      && GuardedAnswer(t, exits[i], IsEscalated(s), ask) in exits[i].paths
      && to == exits[i].paths[GuardedAnswer(t, exits[i], IsEscalated(s), ask)]
  }

  lemma EscalatedMovesToEnd(t: Tables, exits: seq<Exit>, node: Name, s: State, ask: Name -> Name, to: Name)
    requires Built(t, exits) && Moves(t, exits, node, s, ask, to) && IsEscalated(s)
    ensures to == END
  {
    hide Accepted, WellFormed, RightExit, AnswersDeclared, LoopsFrom, IsEscalated, IsNode;
    var i :| 0 <= i < |exits| && exits[i].source == node
      && (exits[i].router.CascadeFrom? ==> exits[i].router.head in t.branch && !LoopsFrom(t.branch, exits[i].router.head))
      && GuardedAnswer(t, exits[i], IsEscalated(s), ask) in exits[i].paths
      && to == exits[i].paths[GuardedAnswer(t, exits[i], IsEscalated(s), ask)];
    EveryAnswerIsMapped(t, exits[i], IsEscalated(s), ask);
  }

  lemma EndIsNoNode(t: Tables, exits: seq<Exit>)
    requires Built(t, exits)
    ensures !IsNode(t, END)
  {
  }

  /** A run that has not ended can always go on: after any entry the edges give a next node, or the
      end; and the end only on purpose, where no answer of the node is spelled like the sentinel. */
  lemma {:induction false} EveryEntryLeadsOn(t: Tables, exits: seq<Exit>, node: Name, s: State, ask: Name -> Name) returns (to: Name, e: Exit)
    requires Built(t, exits) && IsNode(t, node) && AnswersDeclared(t.branch, ask)
    ensures Moves(t, exits, node, s, ask, to) && e in exits && e.source == node
    ensures IsNode(t, to) || to == END
    ensures e.router.CascadeFrom? ==> e.router.head in t.branch && !LoopsFrom(t.branch, e.router.head)
    ensures (e.router.CascadeFrom? ==> SentinelHarmless(t, e.router.head)) && to == END ==>
      OnPurpose(t, e, IsEscalated(s), GuardedAnswer(t, e, IsEscalated(s), ask))
  {
    hide Accepted, SentinelHarmless, WellFormed, RightExit, AnswersDeclared, LoopsFrom, IsEscalated, OnPurpose, GuardedAnswer, IsNode;
    var i :| 0 <= i < |exits| && exits[i].source == node;
    e := exits[i];
    EveryAnswerIsMapped(t, e, IsEscalated(s), ask);
    if e.router.CascadeFrom? ==> SentinelHarmless(t, e.router.head) { RunsStopOnlyOnPurpose(t, e, IsEscalated(s), ask); }
    to := e.paths[GuardedAnswer(t, e, IsEscalated(s), ask)];
  }
}
