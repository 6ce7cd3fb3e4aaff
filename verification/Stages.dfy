/** Runs of the whole workflow: parent steps are wrapped nodes, stages are graphs of their own whose
    wrapped nodes run inside and whose state comes back to the parent as one write. Every wrapped entry
    counts, wherever it is made, and a refusal anywhere stops everything. */
module Stages {
  import opened Orders
  import opened Lifecycle
  import Reducers
  import opened Chains
  import opened Topology
  import opened Runs

  /** How an inner node leaves: straight to the end, or through a guarded router's path map. */
  datatype Edge = Ends | Guarded(paths: map<Name, Name>)

  /** A stage's own graph. */
  datatype Stage = Stage(first: Name, edges: map<Name, Edge>)

  /** What every stage builder wires: no node under the end's name, and each guarded edge with the
      sentinel sent to the end. */
  ghost predicate Wired(g: Stage) {
    && g.first in g.edges && END !in g.edges
    && forall n :: n in g.edges && g.edges[n].Guarded? ==> ESCALATED in g.edges[n].paths && g.edges[n].paths[ESCALATED] == END
  }

  /** Where an inner edge leads, `answer` being what its router would say; none for an unmapped answer. */
  function Goes(g: Stage, node: Name, s: State, answer: Name): Option<Name>
    requires node in g.edges
  {
    match g.edges[node]
    case Ends => Some(END)
    case Guarded(paths) =>
      var key := if IsEscalated(s) then ESCALATED else answer;
      if key in paths then Some(paths[key]) else None
  }

  /** A stage's inner run so far: its first node first, and each next node where the edge before leads. */
  ghost predicate InnerRun(g: Stage, ctx: Context, states: seq<State>, entries: seq<Entry>, answers: seq<Name>) {
    && Run(ctx, states, entries) && entries != [] && |answers| == |entries| && entries[0].node == g.first
    && (forall i :: 0 <= i < |entries| ==> entries[i].node in g.edges)
    && (forall i :: 0 <= i < |entries| - 1 ==> Goes(g, entries[i].node, states[i + 1], answers[i]) == Some(entries[i + 1].node))
  }

  /** One visit to a node of the parent: a wrapped step, or a stay in a stage with all it did there and
      how often its write was merged again. */
  datatype Visit =
    | Stepped(entry: Entry)
    | Stayed(node: Name, entries: seq<Entry>, states: seq<State>, answers: seq<Name>, replays: nat)
  {
    function Node(): Name { if Stepped? then entry.node else node }
    function Entries(): seq<Entry> { if Stepped? then [entry] else entries }
    function States(next: State): seq<State> { if Stepped? then [next] else if states == [] then [] else states[1..] }
  }

  type Wiring = map<Name, Stage>

  /** The visit's own nodes have run from `s` and left `c`: the stage starts from a copy of its parent. */
  ghost predicate RanTo(stages: Wiring, ctx: Context, s: State, v: Visit, c: State) {
    match v
    case Stepped(e) => Enters(s, ctx, e, c)
    case Stayed(node, entries, states, answers, _) =>
      && node in stages && Wired(stages[node]) && InnerRun(stages[node], ctx, states, entries, answers)
      && Reducers.Mergeable(Reducers.UNSET, s) && states[0] == Reducers.Merged(Reducers.UNSET, s)
      && c == states[|states| - 1]
  }

  /** The visit is over: a stage has come to its end and its whole state has been merged into the parent. */
  ghost predicate Completes(stages: Wiring, ctx: Context, s: State, v: Visit, next: State) {
    match v
    case Stepped(_) => RanTo(stages, ctx, s, v, next)
    case Stayed(node, entries, states, answers, replays) =>
      && states != [] && RanTo(stages, ctx, s, v, states[|states| - 1])
      && Goes(stages[node], entries[|entries| - 1].node, states[|states| - 1], answers[|answers| - 1]) == Some(END)
      && Reducers.Mergeable(s, states[|states| - 1]) && Reducers.MergedTimes(s, states[|states| - 1], replays + 1, next)
  }

  /** A run of the workflow. Every visit but the last is over and its edge led to the next; the last may
      still be inside a stage. */
  ghost predicate GraphRun(t: Tables, exits: seq<Exit>, stages: Wiring, ctx: Context, states: seq<State>, visits: seq<Visit>, asks: seq<Name -> Name>) {
    && |states| == |visits| + 1 && |asks| == |visits|
    && Reducers.Sound(states[0]) && (forall n :: VisitCount(states[0], n) >= 0)
    && (forall i :: 0 <= i < |visits| ==>
         if visits[i].Stepped? then visits[i].Node() in t.steps else visits[i].Node() in t.subgraphs)
    && (forall i :: 0 <= i < |visits| - 1 ==>
         && Completes(stages, ctx, states[i], visits[i], states[i + 1])
         && Moves(t, exits, visits[i].Node(), states[i + 1], asks[i], visits[i + 1].Node()))
    && (visits != [] ==> RanTo(stages, ctx, states[|visits| - 1], visits[|visits| - 1], states[|visits|]))
  }

  // -- a stay is its entries ---------------------------------------------------------------------

  ghost function UpdatesOf(ctx: Context, states: seq<State>, entries: seq<Entry>): seq<State>
    requires |states| == |entries| + 1
  {
    seq(|entries|, i requires 0 <= i < |entries| => UpdateOf(states[i], ctx, entries[i]))
  }

  /** A run of wrapped entries is a sequence of merges, however often each was replayed. */
  lemma {:induction false} RunIsMerges(ctx: Context, states: seq<State>, entries: seq<Entry>)
    requires |states| == |entries| + 1
    requires forall i :: 0 <= i < |entries| ==> Enters(states[i], ctx, entries[i], states[i + 1])
    ensures Reducers.After(states[0], UpdatesOf(ctx, states, entries)) == Some(states[|entries|])
  {
    hide UpdateOf, Reducers.Mergeable, Reducers.Merged, Reducers.MergedTimes, Enters;
    if entries != [] {
      var n := |entries| - 1;
      var updates := UpdatesOf(ctx, states, entries);
      RunIsMerges(ctx, states[..n + 1], entries[..n]);
      assert updates[..n] == UpdatesOf(ctx, states[..n + 1], entries[..n]);
      assert Enters(states[n], ctx, entries[n], states[n + 1]);
      EntersIsMergeable(states[n], ctx, entries[n], states[n + 1]);
      EntersOnce(states[n], ctx, entries[n], states[n + 1]);
    }
  }

  lemma EntersIsMergeable(s: State, ctx: Context, e: Entry, next: State)
    requires Enters(s, ctx, e, next)
    ensures Reducers.Mergeable(s, UpdateOf(s, ctx, e))
  {
  }

  lemma StageStartsAsParent(stages: Wiring, ctx: Context, s: State, v: Visit, c: State)
    requires Reducers.Sound(s) && v.Stayed? && RanTo(stages, ctx, s, v, c)
    ensures v.states[0] == s && c == v.states[|v.entries|]
    ensures Reducers.After(s, UpdatesOf(ctx, v.states, v.entries)) == Some(c) && Reducers.Sound(c)
  {
    hide Reducers.Sound, Reducers.Merged, Reducers.Mergeable, Goes, Enters, Wired, VisitCount;
    Reducers.EntryCopies(s);
    RunIsMerges(ctx, v.states, v.entries);
    Reducers.AfterIsLater(s, UpdatesOf(ctx, v.states, v.entries));
  }

  lemma StepIsSound(s: State, ctx: Context, e: Entry, next: State)
    requires Reducers.Sound(s) && Enters(s, ctx, e, next)
    ensures Reducers.Sound(next)
  {
    hide UpdateOf, Reducers.Sound, Reducers.Merged, Reducers.Mergeable, Reducers.MergedTimes;
    EntersOnce(s, ctx, e, next);
    Reducers.MergeMoves(s, UpdateOf(s, ctx, e));
  }

  /** A finished stay leaves the parent with exactly the state its nodes left: the echo adds nothing. */
  lemma VisitLeavesItsNodes(stages: Wiring, ctx: Context, s: State, v: Visit, next: State)
    requires Reducers.Sound(s) && Completes(stages, ctx, s, v, next)
    ensures RanTo(stages, ctx, s, v, next)
  {
    hide Reducers.Sound, Reducers.Merged, Reducers.Mergeable, Goes, Enters, Wired, VisitCount;
    if v.Stayed? {
      var c := v.states[|v.states| - 1];
      StageStartsAsParent(stages, ctx, s, v, c);
      Reducers.EchoIsAbsorbed(s, UpdatesOf(ctx, v.states, v.entries));
      Reducers.AnyNumberOfReplays(s, c, v.replays + 1, next);
    }
  }

  // -- the run as one run of wrapped entries -----------------------------------------------------

  function AllEntries(visits: seq<Visit>, n: nat): seq<Entry>
    requires n <= |visits|
  {
    if n == 0 then [] else AllEntries(visits, n - 1) + visits[n - 1].Entries()
  }

  function AllStates(visits: seq<Visit>, states: seq<State>, n: nat): seq<State>
    requires n <= |visits| && |states| == |visits| + 1
  {
    if n == 0 then [states[0]] else AllStates(visits, states, n - 1) + visits[n - 1].States(states[n])
  }

  lemma RunGoesOn(ctx: Context, a: seq<State>, ea: seq<Entry>, b: seq<State>, eb: seq<Entry>)
    requires Run(ctx, a, ea) && |b| == |eb| + 1 && b[0] == a[|ea|]
    requires forall i :: 0 <= i < |eb| ==> Enters(b[i], ctx, eb[i], b[i + 1])
    ensures Run(ctx, a + b[1..], ea + eb)
  {
    hide Enters, VisitCount;
    var states, entries := a + b[1..], ea + eb;
    assert states[0] == a[0];
    forall i | 0 <= i < |entries| ensures Enters(states[i], ctx, entries[i], states[i + 1]) {
      if i >= |ea| {
        assert states[i] == b[i - |ea|] && states[i + 1] == b[i - |ea| + 1];
        assert Enters(b[i - |ea|], ctx, eb[i - |ea|], b[i - |ea| + 1]);
      } else {
        assert Enters(a[i], ctx, ea[i], a[i + 1]);
      }
    }
  }

  /** What one visit adds to the run. */
  lemma VisitIsARun(stages: Wiring, ctx: Context, s: State, v: Visit, c: State)
    requires Reducers.Sound(s) && RanTo(stages, ctx, s, v, c)
    ensures Reducers.Sound(c) && v.Entries() != [] && |v.States(c)| == |v.Entries()| && v.States(c)[|v.States(c)| - 1] == c
    ensures forall i :: 0 <= i < |v.Entries()| ==> Enters(([s] + v.States(c))[i], ctx, v.Entries()[i], ([s] + v.States(c))[i + 1])
  {
    hide Reducers.Sound, Reducers.Merged, Reducers.Mergeable, Goes, Enters, Wired, VisitCount;
    if v.Stepped? {
      StepIsSound(s, ctx, v.entry, c);
    } else {
      StageStartsAsParent(stages, ctx, s, v, c);
      assert [s] + v.States(c) == v.states;
    }
  }

  lemma ReachedAt(t: Tables, exits: seq<Exit>, stages: Wiring, ctx: Context, states: seq<State>, visits: seq<Visit>, asks: seq<Name -> Name>, n: nat)
    requires GraphRun(t, exits, stages, ctx, states, visits, asks) && n < |visits| && Reducers.Sound(states[n])
    ensures RanTo(stages, ctx, states[n], visits[n], states[n + 1])
  {
    hide Reducers.Sound, Moves, RanTo, Completes, VisitCount;
    if n < |visits| - 1 { VisitLeavesItsNodes(stages, ctx, states[n], visits[n], states[n + 1]); }
  }

  /** Up to any visit, what has run is a run of wrapped entries, stays and steps alike, and the parent
      stands where the last of them left the state. */
  lemma {:induction false} WorkflowIsARun(t: Tables, exits: seq<Exit>, stages: Wiring, ctx: Context, states: seq<State>, visits: seq<Visit>, asks: seq<Name -> Name>, n: nat)
    requires GraphRun(t, exits, stages, ctx, states, visits, asks) && n <= |visits|
    ensures var all := AllStates(visits, states, n);
      && Run(ctx, all, AllEntries(visits, n)) && all[|all| - 1] == states[n]
      && |AllEntries(visits, n)| >= n && all[0] == states[0] && Reducers.Sound(states[n])
  {
    hide Reducers.Sound, Moves, RanTo, Completes, Enters, VisitCount, Visit.States, Visit.Entries, Run;
    if n == 0 {
      NothingRun(ctx, states[0]);
    } else {
      var v := visits[n - 1];
      WorkflowIsARun(t, exits, stages, ctx, states, visits, asks, n - 1);
      ReachedAt(t, exits, stages, ctx, states, visits, asks, n - 1);
      VisitIsARun(stages, ctx, states[n - 1], v, states[n]);
      RunHasStates(ctx, AllStates(visits, states, n - 1), AllEntries(visits, n - 1));
      var b := [states[n - 1]] + v.States(states[n]);
      RunGoesOn(ctx, AllStates(visits, states, n - 1), AllEntries(visits, n - 1), b, v.Entries());
      assert b[1..] == v.States(states[n]);
    }
  }

  lemma NothingRun(ctx: Context, s: State)
    requires forall n :: VisitCount(s, n) >= 0
    ensures Run(ctx, [s], [])
  {
  }

  // -- nothing runs after the flag ---------------------------------------------------------------

  lemma EscalatedEndsTheStage(g: Stage, node: Name, s: State, answer: Name)
    requires Wired(g) && node in g.edges && IsEscalated(s)
    ensures Goes(g, node, s, answer) == Some(END)
  {
    hide IsEscalated;
  }

  lemma StageIsQuiet(stages: Wiring, ctx: Context, s: State, v: Visit, c: State, i: nat)
    requires v.Stayed? && RanTo(stages, ctx, s, v, c) && i < |v.entries| - 1
    ensures !IsEscalated(v.states[i + 1])
  {
    hide IsEscalated, Goes, Enters, VisitCount;
    var g := stages[v.node];
    assert Goes(g, v.entries[i].node, v.states[i + 1], v.answers[i]) == Some(v.entries[i + 1].node);
    assert v.entries[i + 1].node != END;
    if IsEscalated(v.states[i + 1]) { EscalatedEndsTheStage(g, v.entries[i].node, v.states[i + 1], v.answers[i]); }
  }

  lemma ParentIsQuiet(t: Tables, exits: seq<Exit>, stages: Wiring, ctx: Context, states: seq<State>, visits: seq<Visit>, asks: seq<Name -> Name>, n: nat)
    requires Built(t, exits) && GraphRun(t, exits, stages, ctx, states, visits, asks) && n < |visits| - 1
    ensures !IsEscalated(states[n + 1])
  {
    hide IsEscalated, Built, Moves, RanTo, Completes, VisitCount, Reducers.Sound;
    var to := visits[n + 1].Node();
    assert Moves(t, exits, visits[n].Node(), states[n + 1], asks[n], to);
    EndIsNoNode(t, exits);
    assert IsNode(t, to);
    if IsEscalated(states[n + 1]) { EscalatedMovesToEnd(t, exits, visits[n].Node(), states[n + 1], asks[n], to); }
  }

  /** Every entry but the last was followed by a state without the flag. */
  ghost predicate Quiet(all: seq<State>, entries: seq<Entry>) {
    |all| == |entries| + 1 && forall k :: 0 < k < |entries| ==> !IsEscalated(all[k])
  }

  lemma QuietGoesOn(a: seq<State>, ea: seq<Entry>, more: seq<State>, em: seq<Entry>)
    requires Quiet(a, ea) && |more| == |em| && em != [] && (ea != [] ==> !IsEscalated(a[|ea|]))
    requires forall i :: 0 <= i < |em| - 1 ==> !IsEscalated(more[i])
    ensures Quiet(a + more, ea + em)
  {
    hide IsEscalated;
    var all, entries := a + more, ea + em;
    forall k | 0 < k < |entries| ensures !IsEscalated(all[k]) {
      if k > |ea| { assert all[k] == more[k - |ea| - 1]; } else { assert all[k] == a[k]; }
    }
  }

  lemma {:induction false} WorkflowIsQuiet(t: Tables, exits: seq<Exit>, stages: Wiring, ctx: Context, states: seq<State>, visits: seq<Visit>, asks: seq<Name -> Name>, n: nat)
    requires Built(t, exits) && GraphRun(t, exits, stages, ctx, states, visits, asks) && n <= |visits|
    ensures Quiet(AllStates(visits, states, n), AllEntries(visits, n))
  {
    hide IsEscalated, Built, Moves, RanTo, Completes, VisitCount, Reducers.Sound, Enters, Visit.States, Visit.Entries, Goes;
    if n > 0 {
      var v := visits[n - 1];
      WorkflowIsQuiet(t, exits, stages, ctx, states, visits, asks, n - 1);
      WorkflowIsARun(t, exits, stages, ctx, states, visits, asks, n - 1);
      ReachedAt(t, exits, stages, ctx, states, visits, asks, n - 1);
      VisitIsARun(stages, ctx, states[n - 1], v, states[n]);
      VisitIsQuiet(stages, ctx, states[n - 1], v, states[n]);
      if n > 1 { ParentIsQuiet(t, exits, stages, ctx, states, visits, asks, n - 2); }
      NoEntriesYet(visits);
      QuietGoesOn(AllStates(visits, states, n - 1), AllEntries(visits, n - 1), v.States(states[n]), v.Entries());
    }
  }

  lemma NoEntriesYet(visits: seq<Visit>)
    ensures AllEntries(visits, 0) == []
  {
  }

  lemma VisitIsQuiet(stages: Wiring, ctx: Context, s: State, v: Visit, c: State)
    requires RanTo(stages, ctx, s, v, c) && |v.States(c)| == |v.Entries()|
    ensures forall i :: 0 <= i < |v.Entries()| - 1 ==> !IsEscalated(v.States(c)[i])
  {
    hide IsEscalated, RanTo;
    if v.Stayed? {
      forall i | 0 <= i < |v.entries| - 1 ensures !IsEscalated(v.States(c)[i]) {
        StageIsQuiet(stages, ctx, s, v, c, i);
        assert v.States(c)[i] == v.states[i + 1];
      }
    }
  }

  // -- the bounds --------------------------------------------------------------------------------

  /** The first refused entry of a run, in a step or inside any stage, is the last entry of all. */
  lemma RefusedEntryIsLast(t: Tables, exits: seq<Exit>, stages: Wiring, ctx: Context, states: seq<State>, visits: seq<Visit>, asks: seq<Name -> Name>, i: nat)
    requires Built(t, exits) && GraphRun(t, exits, stages, ctx, states, visits, asks) && i < |AllEntries(visits, |visits|)|
    requires |AllStates(visits, states, |visits|)| == |AllEntries(visits, |visits|)| + 1
    requires CheckBudgets(AllStates(visits, states, |visits|)[i], ctx, AllEntries(visits, |visits|)[i].node).Spent?
    ensures i == |AllEntries(visits, |visits|)| - 1
  {
    hide Built, Moves, RanTo, Completes, Reducers.Sound, CheckBudgets, IsEscalated, Enters, AllEntries, AllStates, VisitCount;
    var all, entries := AllStates(visits, states, |visits|), AllEntries(visits, |visits|);
    WorkflowIsARun(t, exits, stages, ctx, states, visits, asks, |visits|);
    WorkflowIsQuiet(t, exits, stages, ctx, states, visits, asks, |visits|);
    assert Enters(all[i], ctx, entries[i], all[i + 1]);
    RefusalRaisesTheFlag(all[i], ctx, entries[i], all[i + 1]);
  }

  /** Every run of the workflow is short, whatever the routers answer and the nodes write: over all steps
      and all stages together it makes at most as many accepted entries as the tighter step limit leaves,
      and one refused; so it visits no more nodes than that either. */
  lemma GraphRunsAreBounded(t: Tables, exits: seq<Exit>, stages: Wiring, ctx: Context, states: seq<State>, visits: seq<Visit>, asks: seq<Name -> Name>)
    requires Built(t, exits) && GraphRun(t, exits, stages, ctx, states, visits, asks)
    ensures |visits| <= |AllEntries(visits, |visits|)| <= 1 + Max(0, StepBudget(ctx).0 - TotalSteps(states[0]))
  {
    hide Built, Moves, RanTo, Completes, Reducers.Sound, CheckBudgets, TotalSteps, AllEntries, AllStates, Run, VisitCount;
    var all, entries := AllStates(visits, states, |visits|), AllEntries(visits, |visits|);
    WorkflowIsARun(t, exits, stages, ctx, states, visits, asks, |visits|);
    RunHasStates(ctx, all, entries);
    if |entries| > 1 {
      var i := |entries| - 2;
      if CheckBudgets(all[i], ctx, entries[i].node).Spent? {
        RefusedEntryIsLast(t, exits, stages, ctx, states, visits, asks, i);
      } else {
        AcceptedEntriesAreBounded(ctx, all, entries, i);
      }
    }
  }

  lemma RunHasStates(ctx: Context, all: seq<State>, entries: seq<Entry>)
    requires Run(ctx, all, entries)
    ensures |all| == |entries| + 1
  {
  }

  // -- a refusal inside a stage ------------------------------------------------------------------

  lemma StaysTerminal(s: State, ctx: Context, e: Entry, next: State)
    requires Enters(s, ctx, e, next) && s.status.Some? && IsTerminal(s.status.value)
    ensures next.status == s.status
  {
    hide UpdateOf, Reducers.Merged, Reducers.Mergeable, Reducers.MergedTimes;
    EntersOnce(s, ctx, e, next);
    MergeStaysTerminal(s, UpdateOf(s, ctx, e));
  }

  lemma MergeStaysTerminal(s: State, u: State)
    requires Reducers.Mergeable(s, u) && s.status.Some? && IsTerminal(s.status.value)
    ensures Reducers.Merged(s, u).status == s.status
  {
    hide Reducers.MergeLists, Reducers.MergeDicts, Reducers.MergeMaxima, Reducers.MergeMax, CanTransition;
    if u.status.Some? { FinishedStays(s.status.value, u.status.value); }
  }

  lemma FinishedStays(a: Status, b: Status)
    requires IsTerminal(a)
    ensures CanTransition(a, b) ==> a == b
  {
  }

  lemma {:induction false} RunStaysTerminal(ctx: Context, states: seq<State>, entries: seq<Entry>, i: nat)
    requires Run(ctx, states, entries) && i <= |entries| && states[0].status.Some? && IsTerminal(states[0].status.value)
    ensures states[i].status == states[0].status
  {
    hide Enters;
    if i > 0 {
      RunStaysTerminal(ctx, states, entries, i - 1);
      assert Enters(states[i - 1], ctx, entries[i - 1], states[i - 1 + 1]);
      StaysTerminal(states[i - 1], ctx, entries[i - 1], states[i]);
    }
  }

  /** A refusal inside a stage ends the stage, its write passes every seam and leaves the parent exactly
      the escalated state, and the parent's own edge then leads to the end and nowhere else. */
  lemma RefusalEndsTheStage(t: Tables, exits: seq<Exit>, stages: Wiring, ctx: Context, s: State, v: Visit, c: State, j: nat)
    requires Built(t, exits) && Reducers.Sound(s) && v.Stayed? && RanTo(stages, ctx, s, v, c)
    requires j < |v.entries| && |v.states| == |v.entries| + 1 && CheckBudgets(v.states[j], ctx, v.entries[j].node).Spent?
    ensures j == |v.entries| - 1 && IsEscalated(c)
    ensures v.node in stages && v.entries[j].node in stages[v.node].edges
    ensures forall answer :: Goes(stages[v.node], v.entries[j].node, c, answer) == Some(END)
    ensures Reducers.Mergeable(s, c) && Reducers.Merged(s, c) == c
    ensures forall ask, to :: Moves(t, exits, v.node, c, ask, to) ==> to == END
  {
    hide Built, Moves, CheckBudgets, IsEscalated, Reducers.Sound, Reducers.Merged, Goes, Enters, Wired, VisitCount;
    StageStartsAsParent(stages, ctx, s, v, c);
    assert Enters(v.states[j], ctx, v.entries[j], v.states[j + 1]);
    RefusalRaisesTheFlag(v.states[j], ctx, v.entries[j], v.states[j + 1]);
    if j < |v.entries| - 1 { StageIsQuiet(stages, ctx, s, v, c, j); }
    forall answer ensures Goes(stages[v.node], v.entries[j].node, c, answer) == Some(END) {
      EscalatedEndsTheStage(stages[v.node], v.entries[j].node, c, answer);
    }
    RefusalPassesTheSeam(ctx, v.states, v.entries, j);
    Reducers.EchoIsAbsorbed(s, UpdatesOf(ctx, v.states, v.entries));
    forall ask, to | Moves(t, exits, v.node, c, ask, to) ensures to == END { EscalatedMovesToEnd(t, exits, v.node, c, ask, to); }
  }

  lemma RefusalPassesTheSeam(ctx: Context, states: seq<State>, entries: seq<Entry>, j: nat)
    requires Run(ctx, states, entries) && j < |entries| && states[j + 1].status == Some(Escalated)
    ensures Reducers.SeamAccepted(states[0], states[j + 1])
  {
    hide Enters, VisitCount;
    if states[0].status.Some? {
      if IsTerminal(states[0].status.value) { RunStaysTerminal(ctx, states, entries, j + 1); }
      EscalationIsLegalIff(states[0].status.value);
    }
  }
}
