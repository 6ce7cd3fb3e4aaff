/** The parent graph's tables, the build-time check over them, and the edges drawn from them. */
module Topology {
  import opened Orders
  import opened Chains

  const END: Name := "__end__"
  const ESCALATED: Name := "__escalated__"
  const ONWARD: Name := "__onward__"

  datatype Link = Link(source: Name, target: Name)

  /** The builder's tables: `steps` is the registry order, `successor` and `after` are dicts in
      insertion order, `declared` is each router's declared answers. */
  datatype Tables = Tables(
    steps: seq<Name>, subgraphs: seq<Name>, successor: seq<Link>, after: seq<Link>, branch: Table,
    declared: map<Name, set<Name>>, endings: map<Name, set<Name>>, terminals: set<Name>, pending: set<Name>)

  function Sources(links: seq<Link>): (r: seq<Name>)
    ensures |r| == |links| && forall i :: 0 <= i < |links| ==> r[i] == links[i].source
  {
    seq(|links|, i requires 0 <= i < |links| => links[i].source)
  }

  function Targets(links: seq<Link>): (r: seq<Name>)
    ensures |r| == |links| && forall i :: 0 <= i < |links| ==> r[i] == links[i].target
  {
    seq(|links|, i requires 0 <= i < |links| => links[i].target)
  }

  predicate IsNode(t: Tables, n: Name) { n in t.steps || n in t.subgraphs }

  /** What Python's dicts and LangGraph's `add_node` guarantee before any check runs: names are keys,
      no node is registered twice or under the end's own name, and there is a first step. */
  ghost predicate WellFormed(t: Tables) {
    && t.steps != [] && Distinct(t.steps) && Distinct(t.subgraphs)
    && (forall n :: n in t.steps ==> n !in t.subgraphs)
    && !IsNode(t, END)
    && Distinct(Sources(t.successor)) && Distinct(Sources(t.after))
    && Dicts(t.branch)
  }

  predicate Asks(t: Tables, n: Name) { n in Sources(t.after) }
  predicate Hands(t: Tables, n: Name) { n in Sources(t.successor) }

  /** A node `_plain_edges` finds no way out of. */
  predicate Terminal(t: Tables, n: Name)
    requires t.steps != []
  {
    !Asks(t, n) && (n == t.steps[|t.steps| - 1] || (n in t.subgraphs && !Hands(t, n)))
  }

  function EndingsOf(t: Tables, d: Name): set<Name> { if d in t.endings then t.endings[d] else {} }

  function ArmGaps(t: Tables): set<Name> {
    set d, a | d in t.branch && a in t.branch[d] && a.target == END && a.answer !in EndingsOf(t, d) :: d + ":" + a.answer
  }

  function NodeGaps(t: Tables): set<Name>
    requires t.steps != []
  {
    (set n | n in t.steps && Terminal(t, n) && n !in t.terminals :: ONWARD + ":" + n)
      + (set n | n in t.subgraphs && Terminal(t, n) && n !in t.terminals :: ONWARD + ":" + n)
  }

  /** `DECISION_AFTER` and `SUBGRAPH_SUCCESSOR` leave real nodes, once, for real nodes. */
  ghost predicate WiringOk(t: Tables) {
    && (forall n :: n in Sources(t.after) ==> IsNode(t, n))
    && (forall n :: n in Sources(t.successor) ==> n in t.subgraphs)
    && (forall n :: n in Targets(t.successor) ==> IsNode(t, n))
    && (forall n :: n in Sources(t.successor) ==> !Asks(t, n))
    && (forall l :: l in t.successor ==> l.source != l.target)
  }

  /** Every wired decision is declared, and every decision asked after a node has targets. */
  ghost predicate DecisionsOk(t: Tables) {
    && (forall d :: d in t.branch ==> d in t.declared)
    && (forall d :: d in Targets(t.after) ==> d in t.declared)
    && (forall d :: d in Targets(t.after) ==> d in t.branch)
  }

  ghost predicate ChainsOk(t: Tables) { forall h :: h in Targets(t.after) ==> !LoopsFrom(t.branch, h) }

  ghost predicate AllAsked(t: Tables) {
    forall d :: d in t.branch ==> exists h :: h in Targets(t.after) && Reaches(t.branch, h, d)
  }

  /** Each path map's keys are the declared answers, and each target is a node, the end or a question. */
  ghost predicate AnswersOk(t: Tables) {
    && (forall d :: d in t.branch ==> d in t.declared && Answers(t.branch[d]) == t.declared[d])
    && (forall d, a :: d in t.branch && a in t.branch[d] ==> IsNode(t, a.target) || a.target == END || a.target in t.branch)
  }

  ghost predicate UnambiguousOk(t: Tables) { forall h :: h in Targets(t.after) ==> !Ambiguous(t.branch, h) }

  ghost predicate PendingOk(t: Tables)
    requires t.steps != []
  {
    ArmGaps(t) + NodeGaps(t) == t.pending
  }

  /** Everything `_check_tables` demands. */
  ghost predicate Accepted(t: Tables)
    requires t.steps != []
  {
    WiringOk(t) && DecisionsOk(t) && ChainsOk(t) && AllAsked(t) && AnswersOk(t) && UnambiguousOk(t) && PendingOk(t)
  }

  datatype Fault =
    | UnknownSource | NotASubgraph | UnknownSuccessor | DoublyWired | SelfLoop | MissingDecision
    | Untargeted | ChainLoops | OrphanTargets | WiredDiffers | Stranger | SharedAnswer | Undeclared | Stale

  method CheckWiring(t: Tables) returns (fault: Option<Fault>)
    ensures fault.None? <==> WiringOk(t)
  {
    if exists n :: n in Sources(t.after) && !IsNode(t, n) { return Some(UnknownSource); }
    if exists n :: n in Sources(t.successor) && n !in t.subgraphs { return Some(NotASubgraph); }
    if exists n :: n in Targets(t.successor) && !IsNode(t, n) { return Some(UnknownSuccessor); }
    if exists n :: n in Sources(t.successor) && Asks(t, n) { return Some(DoublyWired); }
    if exists l :: l in t.successor && l.source == l.target { return Some(SelfLoop); }
    fault := None;
  }

  method CheckDecisions(t: Tables) returns (fault: Option<Fault>)
    ensures fault.None? <==> DecisionsOk(t)
  {
    if exists d :: d in t.branch && d !in t.declared { return Some(MissingDecision); }
    if exists d :: d in Targets(t.after) && d !in t.declared { return Some(MissingDecision); }
    if exists d :: d in Targets(t.after) && d !in t.branch { return Some(Untargeted); }
    fault := None;
  }

  /** Reachable, not just wired: a question no chain comes to is an orphan. */
  method CheckOrphans(t: Tables) returns (fault: Option<Fault>)
    ensures fault.None? <==> AllAsked(t)
  {
    hide Reaches;
    var heads := Targets(t.after);
    var reachable: set<Name> := {};
    var i := 0;
    while i < |heads|
      invariant 0 <= i <= |heads|
      invariant forall d :: d in reachable <==> exists k :: 0 <= k < i && Reaches(t.branch, heads[k], d)
    {
      var chain := ChainFrom(t.branch, heads[i]);
      reachable := reachable + Elements(chain);
      i := i + 1;
    }
    forall d ensures d in reachable <==> exists h :: h in heads && Reaches(t.branch, h, d) {
      if h :| h in heads && Reaches(t.branch, h, d) {
        var k :| 0 <= k < |heads| && heads[k] == h;
      }
    }
    fault := if exists d :: d in t.branch && d !in reachable then Some(OrphanTargets) else None;
  }

  method CheckAnswers(t: Tables) returns (fault: Option<Fault>)
    requires DecisionsOk(t)
    ensures fault.None? <==> AnswersOk(t)
  {
    if exists d :: d in t.branch && Answers(t.branch[d]) != t.declared[d] { return Some(WiredDiffers); }
    if exists d :: d in t.branch && exists a :: a in t.branch[d] && !IsNode(t, a.target) && a.target != END && a.target !in t.branch {
      return Some(Stranger);
    }
    fault := None;
  }

  method CheckAmbiguity(t: Table, heads: seq<Name>) returns (ok: bool)
    requires Dicts(t)
    ensures ok <==> forall h :: h in heads ==> !Ambiguous(t, h)
  {
    hide Ambiguous, IsPathMap, Dicts;
    var i := 0;
    while i < |heads|
      invariant 0 <= i <= |heads|
      invariant forall k :: 0 <= k < i ==> !Ambiguous(t, heads[k])
    {
      assert heads[i] in heads;
      var out := TerminalTargets(t, heads[i]);
      if out.None? { return false; }
      i := i + 1;
    }
    ok := true;
  }

  method CheckPendingStages(t: Tables) returns (fault: Option<Fault>)
    requires t.steps != []
    ensures fault.None? <==> PendingOk(t)
  {
    hide ArmGaps, NodeGaps;
    var gaps := ArmGaps(t) + NodeGaps(t);
    if !(gaps <= t.pending) { return Some(Undeclared); }
    if !(t.pending <= gaps) { return Some(Stale); }
    fault := None;
  }

  /** The static checker. It passes exactly the tables `Accepted` describes. */
  method CheckTables(t: Tables) returns (fault: Option<Fault>)
    requires WellFormed(t)
    ensures fault.None? <==> Accepted(t)
  {
    hide LoopsFrom, Ambiguous, WiringOk, AllAsked, AnswersOk, PendingOk;
    fault := CheckWiring(t);
    if fault.Some? { return; }
    fault := CheckDecisions(t);
    if fault.Some? { return; }
    var loop := CheckChains(t.branch, Targets(t.after));
    if loop.Some? { return Some(ChainLoops); }
    fault := CheckOrphans(t);
    if fault.Some? { return; }
    fault := CheckAnswers(t);
    if fault.Some? { return; }
    var ok := CheckAmbiguity(t.branch, Targets(t.after));
    if !ok { return Some(SharedAnswer); }
    fault := CheckPendingStages(t);
  }

  // -- the edges ---------------------------------------------------------------------------------

  datatype Router = StraightOn | CascadeFrom(head: Name)

  /** One `add_conditional_edges` call: the guarded router's answers and where each goes. */
  datatype Exit = Exit(source: Name, router: Router, paths: map<Name, Name>)

  function Straight(source: Name, target: Name): Exit {
    Exit(source, StraightOn, map[ESCALATED := END, ONWARD := target])
  }

  function ExitSources(exits: seq<Exit>): (r: seq<Name>)
    ensures |r| == |exits| && forall i :: 0 <= i < |exits| ==> r[i] == exits[i].source
  {
    seq(|exits|, i requires 0 <= i < |exits| => exits[i].source)
  }

  /** The four kinds of way out, told apart by the tables alone. */
  ghost predicate DecisionExit(t: Tables, e: Exit) {
    && Link(e.source, if e.router.CascadeFrom? then e.router.head else "") in t.after && e.router.CascadeFrom?
    && ESCALATED in e.paths && e.paths[ESCALATED] == END
    && exists out :: IsPathMap(t.branch, e.router.head, out) && e.paths == out[ESCALATED := END]
  }

  ghost predicate SuccessorExit(t: Tables, e: Exit) {
    exists l :: l in t.successor && e == Straight(l.source, l.target)
  }

  ghost predicate PlainExit(t: Tables, e: Exit) {
    exists i :: 0 <= i < |t.steps| - 1 && !Asks(t, t.steps[i]) && e == Straight(t.steps[i], t.steps[i + 1])
  }

  ghost predicate TerminalExit(t: Tables, e: Exit)
    requires t.steps != []
  {
    IsNode(t, e.source) && Terminal(t, e.source) && e == Straight(e.source, END)
  }

  ghost predicate RightExit(t: Tables, e: Exit)
    requires t.steps != []
  {
    DecisionExit(t, e) || SuccessorExit(t, e) || PlainExit(t, e) || TerminalExit(t, e)
  }

  ghost predicate Good(t: Tables, exits: seq<Exit>)
    requires t.steps != []
  {
    forall i :: 0 <= i < |exits| ==> RightExit(t, exits[i])
  }

  method PlainEdges(t: Tables) returns (exits: seq<Exit>)
    requires t.steps != []
    ensures forall i :: 0 <= i < |exits| ==> PlainExit(t, exits[i])
    ensures Distinct(t.steps) ==> Distinct(ExitSources(exits))
    ensures forall n :: n in ExitSources(exits) <==> n in t.steps[..|t.steps| - 1] && !Asks(t, n)
  {
    exits := [];
    var i := 0;
    while i < |t.steps| - 1
      invariant 0 <= i <= |t.steps| - 1
      invariant forall k :: 0 <= k < |exits| ==> PlainExit(t, exits[k])
      invariant Distinct(t.steps) ==> Distinct(ExitSources(exits))
      invariant forall n :: n in ExitSources(exits) <==> n in t.steps[..i] && !Asks(t, n)
    {
      assert t.steps[..i + 1] == t.steps[..i] + [t.steps[i]];
      if !Asks(t, t.steps[i]) {
        var e := Straight(t.steps[i], t.steps[i + 1]);
        assert ExitSources(exits + [e]) == ExitSources(exits) + [t.steps[i]];
        exits := exits + [e];
      }
      i := i + 1;
    }
  }

  method SuccessorEdges(t: Tables) returns (exits: seq<Exit>)
    ensures forall i :: 0 <= i < |exits| ==> SuccessorExit(t, exits[i])
    ensures ExitSources(exits) == Sources(t.successor)
  {
    exits := [];
    var i := 0;
    while i < |t.successor|
      invariant 0 <= i <= |t.successor|
      invariant forall k :: 0 <= k < |exits| ==> SuccessorExit(t, exits[k])
      invariant ExitSources(exits) == Sources(t.successor)[..i]
    {
      var l := t.successor[i];
      assert l in t.successor;
      exits := exits + [Straight(l.source, l.target)];
      i := i + 1;
    }
  }

  method TerminalEdges(t: Tables) returns (exits: seq<Exit>)
    requires WellFormed(t)
    ensures forall i :: 0 <= i < |exits| ==> TerminalExit(t, exits[i])
    ensures Distinct(ExitSources(exits))
    ensures forall n :: n in ExitSources(exits) <==> IsNode(t, n) && Terminal(t, n)
  {
    hide EndsSoFar;
    var last := t.steps[|t.steps| - 1];
    exits := if Asks(t, last) then [] else [Straight(last, END)];
    LastStepEnds(t);
    var i := 0;
    while i < |t.subgraphs|
      invariant 0 <= i <= |t.subgraphs| && EndsSoFar(t, exits, i)
    {
      var n := t.subgraphs[i];
      StageEnds(t, exits, i);
      if !Asks(t, n) && !Hands(t, n) { exits := exits + [Straight(n, END)]; }
      i := i + 1;
    }
    AllEnds(t, exits);
  }

  /** The exits of the last step and the first stages that nothing follows. */
  ghost predicate EndsSoFar(t: Tables, exits: seq<Exit>, i: nat)
    requires t.steps != [] && i <= |t.subgraphs|
  {
    && (forall k :: 0 <= k < |exits| ==> TerminalExit(t, exits[k]))
    && Distinct(ExitSources(exits))
    && forall n :: n in ExitSources(exits) <==>
         (n == t.steps[|t.steps| - 1] && !Asks(t, n)) || (n in t.subgraphs[..i] && Terminal(t, n))
  }

  lemma LastStepEnds(t: Tables)
    requires WellFormed(t)
    ensures var last := t.steps[|t.steps| - 1];
      EndsSoFar(t, if Asks(t, last) then [] else [Straight(last, END)], 0)
  {
    var last := t.steps[|t.steps| - 1];
    assert last in t.steps;
    assert ExitSources([Straight(last, END)]) == [last] && ExitSources([]) == [];
  }

  lemma StageEnds(t: Tables, exits: seq<Exit>, i: nat)
    requires WellFormed(t) && i < |t.subgraphs| && EndsSoFar(t, exits, i)
    ensures var n := t.subgraphs[i];
      EndsSoFar(t, if !Asks(t, n) && !Hands(t, n) then exits + [Straight(n, END)] else exits, i + 1)
  {
    hide Asks, Hands, Dicts;
    var n := t.subgraphs[i];
    assert n in t.subgraphs && t.subgraphs[..i + 1] == t.subgraphs[..i] + [n];
    assert t.steps[|t.steps| - 1] in t.steps;
    NewSource(t, exits, i);
    assert ExitSources(exits + [Straight(n, END)]) == ExitSources(exits) + [n];
  }

  lemma NewSource(t: Tables, exits: seq<Exit>, i: nat)
    requires WellFormed(t) && i < |t.subgraphs| && EndsSoFar(t, exits, i)
    ensures t.subgraphs[i] !in ExitSources(exits) && Distinct(ExitSources(exits) + [t.subgraphs[i]])
  {
    hide Asks, Hands, Dicts, Terminal, TerminalExit;
    var n := t.subgraphs[i];
    assert n in t.subgraphs && t.steps[|t.steps| - 1] in t.steps;
    assert n !in t.subgraphs[..i];
    DistinctAppend(ExitSources(exits), n);
  }

  lemma AllEnds(t: Tables, exits: seq<Exit>)
    requires WellFormed(t) && EndsSoFar(t, exits, |t.subgraphs|)
    ensures forall i :: 0 <= i < |exits| ==> TerminalExit(t, exits[i])
    ensures Distinct(ExitSources(exits))
    ensures forall n :: n in ExitSources(exits) <==> IsNode(t, n) && Terminal(t, n)
  {
    assert t.subgraphs[..|t.subgraphs|] == t.subgraphs;
    assert t.steps[|t.steps| - 1] in t.steps;
  }

  lemma IsDecisionExit(t: Tables, l: Link, out: map<Name, Name>)
    requires l in t.after && IsPathMap(t.branch, l.target, out)
    ensures DecisionExit(t, Exit(l.source, CascadeFrom(l.target), out[ESCALATED := END]))
  {
    hide IsPathMap;
  }

  method DecisionEdges(t: Tables) returns (exits: seq<Exit>)
    requires WellFormed(t) && Accepted(t)
    ensures forall i :: 0 <= i < |exits| ==> DecisionExit(t, exits[i])
    ensures ExitSources(exits) == Sources(t.after)
  {
    hide Ambiguous, IsPathMap, WiringOk, DecisionsOk, ChainsOk, AllAsked, AnswersOk, PendingOk, Dicts;
    exits := [];
    var i := 0;
    while i < |t.after|
      invariant 0 <= i <= |t.after|
      invariant forall k :: 0 <= k < |exits| ==> DecisionExit(t, exits[k])
      invariant ExitSources(exits) == Sources(t.after)[..i]
    {
      var l := t.after[i];
      assert l in t.after && l.target == Targets(t.after)[i] && l.target in Targets(t.after);
      var out := TerminalTargets(t.branch, l.target);
      var e := Exit(l.source, CascadeFrom(l.target), out.value[ESCALATED := END]);
      IsDecisionExit(t, l, out.value);
      exits := exits + [e];
      i := i + 1;
    }
  }

  /** The parent graph's edges. Every wired node gets exactly one way out, of exactly one kind. */
  method BuildParentGraph(t: Tables) returns (exits: Option<seq<Exit>>)
    requires WellFormed(t)
    ensures exits.Some? <==> Accepted(t)
    ensures exits.Some? ==>
      && Good(t, exits.value) && Distinct(ExitSources(exits.value))
      && forall n :: n in ExitSources(exits.value) <==> IsNode(t, n)
  {
    hide Accepted, RightExit, DecisionExit, SuccessorExit, PlainExit, TerminalExit, Terminal, Asks, Distinct, Dicts;
    var fault := CheckTables(t);
    if fault.Some? { return None; }
    var plain := PlainEdges(t);
    var onward := SuccessorEdges(t);
    var ends := TerminalEdges(t);
    var asked := DecisionEdges(t);
    var all := plain + onward + ends + asked;
    assert ExitSources(all) == ExitSources(plain) + ExitSources(onward) + ExitSources(ends) + ExitSources(asked);
    OneWayOut(t, ExitSources(plain), ExitSources(onward), ExitSources(ends), ExitSources(asked));
    AllGood(t, plain, onward, ends, asked);
    exits := Some(all);
  }

  lemma AllGood(t: Tables, plain: seq<Exit>, onward: seq<Exit>, ends: seq<Exit>, asked: seq<Exit>)
    requires t.steps != []
    requires forall i :: 0 <= i < |plain| ==> PlainExit(t, plain[i])
    requires forall i :: 0 <= i < |onward| ==> SuccessorExit(t, onward[i])
    requires forall i :: 0 <= i < |ends| ==> TerminalExit(t, ends[i])
    requires forall i :: 0 <= i < |asked| ==> DecisionExit(t, asked[i])
    ensures Good(t, plain + onward + ends + asked)
  {
    hide DecisionExit, SuccessorExit, PlainExit, TerminalExit;
  }

  lemma OneWayOut(t: Tables, plain: seq<Name>, onward: seq<Name>, ends: seq<Name>, asked: seq<Name>)
    requires WellFormed(t) && Accepted(t)
    requires Distinct(plain) && forall n :: n in plain <==> n in t.steps[..|t.steps| - 1] && !Asks(t, n)
    requires onward == Sources(t.successor) && asked == Sources(t.after)
    requires Distinct(ends) && forall n :: n in ends <==> IsNode(t, n) && Terminal(t, n)
    ensures Distinct(plain + onward + ends + asked)
    ensures forall n :: n in plain + onward + ends + asked <==> IsNode(t, n)
  {
    hide DecisionsOk, ChainsOk, AllAsked, AnswersOk, UnambiguousOk, PendingOk, Dicts;
    var last := t.steps[|t.steps| - 1];
    assert t.steps == t.steps[..|t.steps| - 1] + [last];
    assert last !in t.steps[..|t.steps| - 1];
    forall n ensures n in plain + onward + ends + asked <==> IsNode(t, n) {
      assert n in t.steps <==> n in t.steps[..|t.steps| - 1] || n == last;
    }
    DistinctConcat(plain, onward);
    DistinctConcat(plain + onward, ends);
    DistinctConcat(plain + onward + ends, asked);
  }

  lemma DistinctConcat(a: seq<Name>, b: seq<Name>)
    requires Distinct(a) && Distinct(b) && forall n :: n in a ==> n !in b
    ensures Distinct(a + b)
  {
    forall i, j | 0 <= i < j < |a + b| ensures (a + b)[i] != (a + b)[j] {
      if i < |a| <= j { assert a[i] in a && b[j - |a|] in b; }
    }
  }

  // -- runs stop only on purpose -----------------------------------------------------------------

  /** An answer spelled like the guard's sentinel would lead to the end anyway. The builder relies on
      this, and says its check covers it, but does not check it. */
  ghost predicate SentinelHarmless(t: Tables, head: Name) {
    forall d, a :: Leaves(t.branch, head, d, a) && a.answer == ESCALATED ==> a.target == END
  }

  /** The guarded router's answer on one exit, in a state where `escalated` is the flag and `ask`
      gives each question's answer. */
  ghost function GuardedAnswer(t: Tables, e: Exit, escalated: bool, ask: Name -> Name): Name
    requires e.router.CascadeFrom? ==> e.router.head in t.branch && !LoopsFrom(t.branch, e.router.head)
    requires AnswersDeclared(t.branch, ask)
  {
    if escalated then ESCALATED
    else if e.router.StraightOn? then ONWARD
    else
      CleanIffNoLoop(t.branch, e.router.head);
      OneAtATime(t.branch, ask, e.router.head, []).answer
  }

  /** Why a run may end: the guard stopped it, the tables say this answer or this node ends a run, or
      they own up to a missing stage. */
  ghost predicate OnPurpose(t: Tables, e: Exit, escalated: bool, answer: Name) {
    || escalated
    || (e.router.StraightOn? && (e.source in t.terminals || ONWARD + ":" + e.source in t.pending))
    || (e.router.CascadeFrom? && exists d ::
         && Leaves(t.branch, e.router.head, d, Arm(answer, END))
         && (answer in EndingsOf(t, d) || d + ":" + answer in t.pending))
  }

  /** The answer has a destination, a node or the end; the end only on purpose, and always if the
      guard fired. */
  ghost predicate LeadsOnPurpose(t: Tables, e: Exit, escalated: bool, answer: Name) {
    && answer in e.paths
    && (escalated ==> e.paths[answer] == END)
    && (IsNode(t, e.paths[answer]) || e.paths[answer] == END)
    && (e.paths[answer] == END ==> OnPurpose(t, e, escalated, answer))
  }

  ghost predicate RunLeads(t: Tables, e: Exit, escalated: bool, ask: Name -> Name)
    requires AnswersDeclared(t.branch, ask)
  {
    && (e.router.CascadeFrom? ==> e.router.head in t.branch && !LoopsFrom(t.branch, e.router.head))
    && LeadsOnPurpose(t, e, escalated, GuardedAnswer(t, e, escalated, ask))
  }

  lemma DecisionExitsStopOnPurpose(t: Tables, e: Exit, ask: Name -> Name)
    requires WellFormed(t) && AnswersOk(t) && PendingOk(t)
    requires DecisionExit(t, e) && SentinelHarmless(t, e.router.head) && AnswersDeclared(t.branch, ask)
    requires e.router.head in t.branch && !LoopsFrom(t.branch, e.router.head)
    ensures LeadsOnPurpose(t, e, false, GuardedAnswer(t, e, false, ask))
  {
    hide LoopsFrom, Reaches, IsPathMap, AnswersDeclared, PendingOk, AnswersOk, OnPurpose, Distinct, Dicts;
    var out :| IsPathMap(t.branch, e.router.head, out) && e.paths == out[ESCALATED := END];
    CleanIffNoLoop(t.branch, e.router.head);
    FlatteningIsExact(t.branch, e.router.head, ask, out);
    var s := OneAtATime(t.branch, ask, e.router.head, []);
    ArmStopsOnPurpose(t, e, s.asked, s.answer);
  }

  lemma ArmStopsOnPurpose(t: Tables, e: Exit, d: Name, answer: Name)
    requires t.steps != [] && AnswersOk(t) && PendingOk(t) && e.router.CascadeFrom?
    requires d in t.branch && Reaches(t.branch, e.router.head, d) && answer in Answers(t.branch[d])
    requires TargetOf(t.branch[d], answer) !in t.branch
    ensures Leaves(t.branch, e.router.head, d, Arm(answer, TargetOf(t.branch[d], answer)))
    ensures var target := TargetOf(t.branch[d], answer);
      && (IsNode(t, target) || target == END)
      && (target == END ==> OnPurpose(t, e, false, answer))
  {
    hide NodeGaps, Reaches;
    var arm := Arm(answer, TargetOf(t.branch[d], answer));
    assert arm in t.branch[d];
    if arm.target == END && answer !in EndingsOf(t, d) {
      assert d + ":" + arm.answer in ArmGaps(t);
      assert d + ":" + answer in t.pending;
    }
  }

  lemma NodeStopsOnPurpose(t: Tables, e: Exit)
    requires t.steps != [] && PendingOk(t) && TerminalExit(t, e)
    ensures OnPurpose(t, e, false, ONWARD)
  {
    hide ArmGaps;
    if e.source !in t.terminals {
      assert ONWARD + ":" + e.source in NodeGaps(t);
      assert ONWARD + ":" + e.source in t.pending;
    }
  }

  lemma SuccessorIsANode(t: Tables, e: Exit)
    requires WiringOk(t) && SuccessorExit(t, e)
    ensures exists target :: IsNode(t, target) && e == Straight(e.source, target)
  {
    var l :| l in t.successor && e == Straight(l.source, l.target);
    var k :| 0 <= k < |t.successor| && t.successor[k] == l;
    assert Targets(t.successor)[k] in Targets(t.successor);
  }

  lemma HeadIsSafe(t: Tables, e: Exit)
    requires DecisionsOk(t) && ChainsOk(t) && DecisionExit(t, e)
    ensures e.router.head in t.branch && e.router.head in Targets(t.after) && !LoopsFrom(t.branch, e.router.head)
  {
    hide LoopsFrom;
    var k :| 0 <= k < |t.after| && t.after[k] == Link(e.source, e.router.head);
    assert Targets(t.after)[k] in Targets(t.after);
  }

  /** On an accepted graph every guarded answer has a destination that is a node or the end, and the
      end is reached only on purpose; with no pending stages that is an escalation, a deliberate
      ending, or a deliberate terminal. */
  lemma {:induction false} RunsStopOnlyOnPurpose(t: Tables, e: Exit, escalated: bool, ask: Name -> Name)
    requires WellFormed(t) && Accepted(t) && RightExit(t, e) && AnswersDeclared(t.branch, ask)
    requires e.router.CascadeFrom? ==> SentinelHarmless(t, e.router.head)
    ensures RunLeads(t, e, escalated, ask)
  {
    hide WiringOk, DecisionsOk, ChainsOk, AllAsked, AnswersOk, UnambiguousOk, PendingOk, Distinct, Dicts;
    hide LoopsFrom, AnswersDeclared, SentinelHarmless, DecisionExit, LeadsOnPurpose, RightExit;
    OnlyDecisionsCascade(t, e);
    if e.router.CascadeFrom? { HeadIsSafe(t, e); }
    if escalated { GuardWins(t, e); }
    else if e.router.CascadeFrom? { DecisionExitsStopOnPurpose(t, e, ask); }
    else { StraightExitsStopOnPurpose(t, e); }
  }

  /** The answer has a destination, a node or the end, and always the end if the guard fired. */
  ghost predicate Mapped(t: Tables, e: Exit, escalated: bool, answer: Name) {
    && answer in e.paths && (escalated ==> e.paths[answer] == END)
    && (IsNode(t, e.paths[answer]) || e.paths[answer] == END)
  }

  ghost predicate RunIsMapped(t: Tables, e: Exit, escalated: bool, ask: Name -> Name)
    requires AnswersDeclared(t.branch, ask)
  {
    && (e.router.CascadeFrom? ==> e.router.head in t.branch && !LoopsFrom(t.branch, e.router.head))
    && Mapped(t, e, escalated, GuardedAnswer(t, e, escalated, ask))
  }

  /** Sentinel or not, every guarded answer has a destination. */
  lemma EveryAnswerIsMapped(t: Tables, e: Exit, escalated: bool, ask: Name -> Name)
    requires WellFormed(t) && Accepted(t) && RightExit(t, e) && AnswersDeclared(t.branch, ask)
    ensures RunIsMapped(t, e, escalated, ask)
  {
    hide WiringOk, DecisionsOk, ChainsOk, AllAsked, AnswersOk, UnambiguousOk, PendingOk, Distinct, Dicts;
    hide LoopsFrom, AnswersDeclared, DecisionExit, RightExit, OnPurpose, IsNode;
    OnlyDecisionsCascade(t, e);
    if e.router.CascadeFrom? { HeadIsSafe(t, e); }
    if escalated {
      GuardWins(t, e);
    } else if e.router.CascadeFrom? {
      CascadeIsMapped(t, e, ask);
    } else {
      StraightExitsStopOnPurpose(t, e);
    }
  }

  lemma CascadeIsMapped(t: Tables, e: Exit, ask: Name -> Name)
    requires WellFormed(t) && AnswersOk(t) && DecisionExit(t, e) && AnswersDeclared(t.branch, ask)
    requires e.router.head in t.branch && !LoopsFrom(t.branch, e.router.head)
    ensures Mapped(t, e, false, GuardedAnswer(t, e, false, ask))
  {
    hide LoopsFrom, Reaches, IsPathMap, AnswersDeclared, Distinct, Dicts, Led, AnswersOk, WellFormed, IsNode;
    var out :| IsPathMap(t.branch, e.router.head, out) && e.paths == out[ESCALATED := END];
    CleanIffNoLoop(t.branch, e.router.head);
    FlatteningIsExact(t.branch, e.router.head, ask, out);
    var s := OneAtATime(t.branch, ask, e.router.head, []);
    LeavingArmIsMapped(t, s.asked, s.answer);
  }

  lemma LeavingArmIsMapped(t: Tables, d: Name, answer: Name)
    requires AnswersOk(t) && d in t.branch && answer in Answers(t.branch[d])
    requires TargetOf(t.branch[d], answer) !in t.branch
    ensures IsNode(t, TargetOf(t.branch[d], answer)) || TargetOf(t.branch[d], answer) == END
  {
    assert Arm(answer, TargetOf(t.branch[d], answer)) in t.branch[d];
  }

  /** The guard not having fired, the exit answers as this question does and leads where it leads. */
  ghost predicate AnsweredBy(t: Tables, e: Exit, ask: Name -> Name, last: Name)
    requires AnswersDeclared(t.branch, ask)
  {
    && (e.router.CascadeFrom? ==> e.router.head in t.branch && !LoopsFrom(t.branch, e.router.head))
    && last in t.branch && GuardedAnswer(t, e, false, ask) == ask(last) && ask(last) in e.paths
    && e.paths[ask(last)] == if ask(last) == ESCALATED then END else TargetOf(t.branch[last], ask(last))
  }

  /** A decision's exit leads where its chained answers do, one spelled like the sentinel apart. */
  lemma DecisionsLeadAsAnswered(t: Tables, e: Exit, ask: Name -> Name, w: seq<Name>)
    requires WellFormed(t) && Accepted(t) && DecisionExit(t, e) && AnswersDeclared(t.branch, ask)
    requires Led(t.branch, ask, w) && w[0] == e.router.head
    ensures AnsweredBy(t, e, ask, w[|w| - 1])
  {
    hide WiringOk, AllAsked, AnswersOk, UnambiguousOk, PendingOk, Distinct, Dicts, LoopsFrom, Reaches, IsPathMap, AnswersDeclared, Led, Mapped, RightExit;
    DecisionIsRight(t, e);
    EveryAnswerIsMapped(t, e, false, ask);
    HeadIsSafe(t, e);
    var out :| IsPathMap(t.branch, e.router.head, out) && e.paths == out[ESCALATED := END];
    CleanIffNoLoop(t.branch, e.router.head);
    FlatteningIsExact(t.branch, e.router.head, ask, out);
  }

  /** A straight exit leads to the end when the guard fired and otherwise to the one node its source is
      wired to: the next step, the stage's successor, or the end where there is neither. */
  lemma StraightEdgesLead(t: Tables, e: Exit)
    requires WellFormed(t) && WiringOk(t) && RightExit(t, e) && e.router.StraightOn?
    ensures e.paths.Keys == {ESCALATED, ONWARD} && e.paths[ESCALATED] == END
    ensures forall k :: 0 <= k < |t.steps| - 1 && t.steps[k] == e.source ==> e.paths[ONWARD] == t.steps[k + 1]
    ensures forall l :: l in t.successor && l.source == e.source ==> e.paths[ONWARD] == l.target
    ensures e.source == t.steps[|t.steps| - 1] ==> e.paths[ONWARD] == END
    ensures e.source in t.subgraphs && (forall l :: l in t.successor ==> l.source != e.source) ==> e.paths[ONWARD] == END
  {
    hide DecisionExit, Dicts;
    OnlyDecisionsCascade(t, e);
    SuccessorSources(t);
    assert t.steps[|t.steps| - 1] in t.steps;
    assert forall k :: 0 <= k < |t.steps| ==> t.steps[k] in t.steps;
  }

  /** Each stage has at most one successor, and only stages have one. */
  lemma SuccessorSources(t: Tables)
    requires WellFormed(t) && WiringOk(t)
    ensures forall l :: l in t.successor ==> l.source in t.subgraphs && l.source in Sources(t.successor)
    ensures forall l, m :: l in t.successor && m in t.successor && l.source == m.source ==> l == m
    ensures forall n :: n in Sources(t.successor) ==> exists l :: l in t.successor && l.source == n
  {
    forall l | l in t.successor ensures l.source in Sources(t.successor) {
      var k :| 0 <= k < |t.successor| && t.successor[k] == l;
      assert Sources(t.successor)[k] == l.source;
    }
    forall l, m | l in t.successor && m in t.successor && l.source == m.source ensures l == m {
      var i :| 0 <= i < |t.successor| && t.successor[i] == l;
      var j :| 0 <= j < |t.successor| && t.successor[j] == m;
      assert Sources(t.successor)[i] == Sources(t.successor)[j];
    }
    forall n | n in Sources(t.successor) ensures exists l :: l in t.successor && l.source == n {
      var k :| 0 <= k < |Sources(t.successor)| && Sources(t.successor)[k] == n;
      assert t.successor[k] in t.successor;
    }
  }

  lemma OnlyDecisionsCascade(t: Tables, e: Exit)
    requires t.steps != [] && RightExit(t, e)
    ensures e.router.CascadeFrom? <==> DecisionExit(t, e)
  {
    hide IsPathMap, Terminal, Asks;
  }

  lemma GuardWins(t: Tables, e: Exit)
    requires t.steps != [] && RightExit(t, e)
    ensures LeadsOnPurpose(t, e, true, ESCALATED)
  {
    hide IsPathMap, Terminal, Asks;
  }

  lemma StraightExitsStopOnPurpose(t: Tables, e: Exit)
    requires WellFormed(t) && WiringOk(t) && PendingOk(t) && RightExit(t, e) && e.router.StraightOn?
    ensures LeadsOnPurpose(t, e, false, ONWARD)
  {
    hide WiringOk, PendingOk, Distinct, Dicts, OnPurpose, DecisionExit;
    OnlyDecisionsCascade(t, e);
    if SuccessorExit(t, e) {
      SuccessorIsANode(t, e);
    } else if PlainExit(t, e) {
      var i :| 0 <= i < |t.steps| - 1 && !Asks(t, t.steps[i]) && e == Straight(t.steps[i], t.steps[i + 1]);
      assert IsNode(t, t.steps[i + 1]);
    } else {
      NodeStopsOnPurpose(t, e);
    }
  }

  /** Whether a decision's exit keeps that promise for every declared way of answering turns on the
      sentinel alone: exactly when no answer leaving its chain for a node is spelled like it. */
  lemma {:induction false} CascadesStopOnPurposeIff(t: Tables, e: Exit, any: Name -> Name)
    requires WellFormed(t) && Accepted(t) && DecisionExit(t, e) && AnswersDeclared(t.branch, any)
    ensures (forall ask :: AnswersDeclared(t.branch, ask) ==> RunLeads(t, e, false, ask)) <==> SentinelHarmless(t, e.router.head)
  {
    hide WiringOk, AllAsked, AnswersOk, PendingOk, DecisionExit, RunLeads, AnswersDeclared, LoopsFrom, Leaves, Ambiguous, Distinct, Dicts;
    DecisionIsRight(t, e);
    if SentinelHarmless(t, e.router.head) {
      forall ask | AnswersDeclared(t.branch, ask) ensures RunLeads(t, e, false, ask) {
        RunsStopOnlyOnPurpose(t, e, false, ask);
      }
    } else {
      HeadIsSafe(t, e);
      var d, a :| Leaves(t.branch, e.router.head, d, a) && a.answer == ESCALATED && a.target != END;
      var ask := EveryArmIsTaken(t.branch, e.router.head, d, a, any);
      DivertedIsNotOnPurpose(t, e, d, a, ask);
    }
  }

  lemma DecisionIsRight(t: Tables, e: Exit)
    requires t.steps != [] && DecisionExit(t, e)
    ensures RightExit(t, e) && e.router.CascadeFrom?
  {
  }

  lemma DivertedIsNotOnPurpose(t: Tables, e: Exit, d: Name, a: Arm, ask: Name -> Name)
    requires Dicts(t.branch) && DecisionExit(t, e) && AnswersDeclared(t.branch, ask)
    requires e.router.head in t.branch && !LoopsFrom(t.branch, e.router.head) && !Ambiguous(t.branch, e.router.head)
    requires Leaves(t.branch, e.router.head, d, a) && a.answer == ESCALATED && a.target != END
    requires Clean(t.branch, e.router.head, []) && OneAtATime(t.branch, ask, e.router.head, []) == Settled(d, ESCALATED)
    ensures !RunLeads(t, e, false, ask)
  {
    hide LoopsFrom, AnswersDeclared, Reaches, IsPathMap, Clean, OneAtATime;
    assert GuardedAnswer(t, e, false, ask) == ESCALATED;
    forall c ensures !Leaves(t.branch, e.router.head, c, Arm(ESCALATED, END)) {
      if c == d && Arm(ESCALATED, END) in t.branch[d] {
        KeyedTarget(t.branch[d], a);
        KeyedTarget(t.branch[d], Arm(ESCALATED, END));
      }
    }
  }

  /** One question, whose one answer is spelled like the sentinel and names the next step. */
  const COLLIDING := Tables(["a", "b"], [], [], [Link("a", "D")], map["D" := [Arm(ESCALATED, "b")]],
    map["D" := {ESCALATED}], map[], {"b"}, {})

  lemma CollidingNames()
    ensures Sources(COLLIDING.after) == ["a"] && Targets(COLLIDING.after) == ["D"]
    ensures Sources(COLLIDING.successor) == [] && Targets(COLLIDING.successor) == []
    ensures WellFormed(COLLIDING)
  {
  }

  lemma WalkMoves(t: Table, w: seq<Name>)
    requires Walk(t, w)
    ensures |w| > 1 ==> Next(t, w[0]) != []
  {
    if |w| > 1 { assert w[0 + 1] in Next(t, w[0]); }
  }

  lemma CollidingChains()
    ensures ChainsOk(COLLIDING) && UnambiguousOk(COLLIDING) && AllAsked(COLLIDING)
  {
    CollidingNames();
    var t := COLLIDING.branch;
    NoMembers(Next(t, "D"));
    assert forall a :: a in t["D"] ==> a == Arm(ESCALATED, "b");
    assert Next(t, "D") == [];
    forall w | Walk(t, w) && w[0] == "D" ensures |w| == 1 {
      WalkMoves(t, w);
    }
    ReachesSelf(t, "D");
  }

  lemma CollidingAnswers()
    ensures DecisionsOk(COLLIDING) && AnswersOk(COLLIDING) && WiringOk(COLLIDING)
  {
    CollidingNames();
    var row := COLLIDING.branch["D"];
    assert row == [Arm(ESCALATED, "b")];
    assert Answers(row) == {ESCALATED};
    assert COLLIDING.steps[1] == "b" && COLLIDING.steps[0] == "a";
  }

  lemma CollidingGaps()
    ensures PendingOk(COLLIDING)
  {
    CollidingNames();
    assert ArmGaps(COLLIDING) == {};
    assert NodeGaps(COLLIDING) == {};
  }

  /** And the check lets such tables through. */
  lemma SentinelCollisionIsAccepted()
    ensures exists t: Tables :: WellFormed(t) && Accepted(t) && exists l :: l in t.after && !SentinelHarmless(t, l.target)
  {
    CollidingNames();
    CollidingChains();
    CollidingAnswers();
    CollidingGaps();
    CollidingDiverts();
    hide ChainsOk, UnambiguousOk, AllAsked, DecisionsOk, AnswersOk, WiringOk, PendingOk, WellFormed, SentinelHarmless;
    assert WellFormed(COLLIDING) && Accepted(COLLIDING);
  }

  lemma CollidingDiverts()
    ensures Link("a", "D") in COLLIDING.after && !SentinelHarmless(COLLIDING, "D")
  {
    hide Reaches;
    assert COLLIDING.after[0] == Link("a", "D");
    ReachesSelf(COLLIDING.branch, "D");
    var arm := COLLIDING.branch["D"][0];
    assert Leaves(COLLIDING.branch, "D", "D", arm) && arm.answer == ESCALATED && arm.target != END;
  }
}
