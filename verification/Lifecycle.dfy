/** The incident lifecycle: what one node may do, what a whole stage may show its parent, and what
    that means over any run. */
module Lifecycle {
  import opened Orders

  datatype Status =
    | New | Triaging | Diagnosing | AwaitingApproval | RemoteResolution | SelfHelp | AwaitingCustomer
    | DispatchPlanning | FieldInProgress | AwaitingHandover | MrRaised | AwaitingPlantRepair
    | Validating | Reconciling | Resolved | Closed | Cancelled | Escalated

  /** The node table. */
  function Transitions(s: Status): set<Status> {
    match s
    case New => {Triaging, Cancelled, Closed, Escalated}
    case Triaging => {Diagnosing, AwaitingApproval, Closed, Cancelled, Escalated}
    case Diagnosing => {AwaitingApproval, RemoteResolution, SelfHelp, DispatchPlanning, Validating, Resolved, Escalated, Cancelled}
    case AwaitingApproval => {Diagnosing, RemoteResolution, SelfHelp, DispatchPlanning, AwaitingHandover, MrRaised, Reconciling, Resolved, Closed, Escalated, Cancelled}
    case RemoteResolution => {Validating, Diagnosing, SelfHelp, DispatchPlanning, AwaitingApproval, Escalated, Cancelled}
    case SelfHelp => {AwaitingCustomer, Validating, Diagnosing, DispatchPlanning, Escalated, Cancelled}
    case AwaitingCustomer => {SelfHelp, Validating, Diagnosing, DispatchPlanning, Escalated, Cancelled}
    case DispatchPlanning => {AwaitingApproval, FieldInProgress, Diagnosing, Escalated, Cancelled}
    case FieldInProgress => {AwaitingHandover, Validating, Diagnosing, DispatchPlanning, Escalated, Cancelled}
    case AwaitingHandover => {MrRaised, FieldInProgress, AwaitingApproval, Escalated, Cancelled}
    case MrRaised => {AwaitingPlantRepair, AwaitingHandover, Escalated, Cancelled}
    case AwaitingPlantRepair => {Validating, MrRaised, Diagnosing, DispatchPlanning, Escalated, Cancelled}
    case Validating => {Reconciling, Diagnosing, RemoteResolution, DispatchPlanning, Escalated, Cancelled}
    case Reconciling => {Resolved, AwaitingApproval, Escalated, Cancelled}
    case Resolved => {Closed, Reconciling, Diagnosing, Escalated}
    case Closed => {}
    case Cancelled => {}
    case Escalated => {Diagnosing, RemoteResolution, DispatchPlanning, AwaitingHandover, MrRaised, Validating, Reconciling, Resolved, Closed, Cancelled}
  }

  /** The seam table: a jump the parent is shown, and the statuses walked through to make it. */
  const STAGE_TRANSITIONS: map<(Status, Status), seq<Status>> := map[
    (DispatchPlanning, Validating) := [FieldInProgress],
    (DispatchPlanning, MrRaised) := [FieldInProgress, AwaitingHandover],
    (Validating, Closed) := [Reconciling, Resolved],
    (Diagnosing, MrRaised) := [AwaitingApproval]]

  /** The node table read backwards: where each status may be entered from. */
  function Doors(s: Status): set<Status> {
    match s
    case New => {}
    case Triaging => {New}
    case Diagnosing => {Triaging, AwaitingApproval, RemoteResolution, SelfHelp, AwaitingCustomer, DispatchPlanning, FieldInProgress, AwaitingPlantRepair, Validating, Resolved, Escalated}
    case AwaitingApproval => {Triaging, Diagnosing, RemoteResolution, DispatchPlanning, AwaitingHandover, Reconciling}
    case RemoteResolution => {Diagnosing, AwaitingApproval, Validating, Escalated}
    case SelfHelp => {Diagnosing, AwaitingApproval, RemoteResolution, AwaitingCustomer}
    case AwaitingCustomer => {SelfHelp}
    case DispatchPlanning => {Diagnosing, AwaitingApproval, RemoteResolution, SelfHelp, AwaitingCustomer, FieldInProgress, AwaitingPlantRepair, Validating, Escalated}
    case FieldInProgress => {DispatchPlanning, AwaitingHandover}
    case AwaitingHandover => {AwaitingApproval, FieldInProgress, MrRaised, Escalated}
    case MrRaised => {AwaitingApproval, AwaitingHandover, AwaitingPlantRepair, Escalated}
    case AwaitingPlantRepair => {MrRaised}
    case Validating => {Diagnosing, RemoteResolution, SelfHelp, AwaitingCustomer, FieldInProgress, AwaitingPlantRepair, Escalated}
    case Reconciling => {AwaitingApproval, Validating, Resolved, Escalated}
    case Resolved => {Diagnosing, AwaitingApproval, Reconciling, Escalated}
    case Closed => {New, Triaging, AwaitingApproval, Resolved, Escalated}
    case Cancelled => {New, Triaging, Diagnosing, AwaitingApproval, RemoteResolution, SelfHelp, AwaitingCustomer, DispatchPlanning, FieldInProgress, AwaitingHandover, MrRaised, AwaitingPlantRepair, Validating, Reconciling, Escalated}
    case Escalated => {New, Triaging, Diagnosing, AwaitingApproval, RemoteResolution, SelfHelp, AwaitingCustomer, DispatchPlanning, FieldInProgress, AwaitingHandover, MrRaised, AwaitingPlantRepair, Validating, Reconciling, Resolved}
  }

  /** The two readings of the table agree, so every status is entered from exactly the listed ones. */
  lemma DoorsAreExact(a: Status, b: Status)
    ensures b in Transitions(a) <==> a in Doors(b)
  {
    if b in EARLY { EarlyDoors(a, b); } else if b in MIDDLE { MiddleDoors(a, b); } else { LateDoors(a, b); }
  }

  const EARLY := {New, Triaging, Diagnosing, AwaitingApproval, RemoteResolution, SelfHelp}
  const MIDDLE := {AwaitingCustomer, DispatchPlanning, FieldInProgress, AwaitingHandover, MrRaised, AwaitingPlantRepair}
  const LATE := {Validating, Reconciling, Resolved, Closed, Cancelled, Escalated}

  lemma EarlyDoors(a: Status, b: Status)
    requires b in EARLY
    ensures b in Transitions(a) <==> a in Doors(b)
  {
  }

  lemma MiddleDoors(a: Status, b: Status)
    requires b in MIDDLE
    ensures b in Transitions(a) <==> a in Doors(b)
  {
  }

  lemma LateDoors(a: Status, b: Status)
    requires b in LATE
    ensures b in Transitions(a) <==> a in Doors(b)
  {
  }

  predicate CanTransition(current: Status, requested: Status) {
    current == requested || requested in Transitions(current) || (current, requested) in STAGE_TRANSITIONS
  }

  predicate IsTerminal(s: Status) { s == Closed || s == Cancelled }

  /** The statuses a channel holds over a run: each write accepted by `can_transition`. */
  ghost predicate StatusRun(run: seq<Status>) {
    forall i :: 0 <= i < |run| - 1 ==> CanTransition(run[i], run[i + 1])
  }

  /** A run of single hops, with no seam and no repeat. */
  ghost predicate HopRun(run: seq<Status>) {
    forall i :: 0 <= i < |run| - 1 ==> run[i + 1] in Transitions(run[i])
  }

  /** Once closed or cancelled, always so, seams included. */
  lemma {:induction false} TerminalIsAbsorbing(run: seq<Status>, i: nat, j: nat)
    requires StatusRun(run) && i <= j < |run| && IsTerminal(run[i])
    ensures run[j] == run[i]
    decreases j - i
  {
    if i < j {
      assert CanTransition(run[i], run[i + 1]);
      TerminalIsAbsorbing(run, i + 1, j);
    }
  }

  lemma StepNeverBack(a: Status, b: Status)
    requires CanTransition(a, b)
    ensures b == New ==> a == New
    ensures b == Triaging ==> a == New || a == Triaging
  {
  }

  lemma {:induction false} NeverNewAfter(run: seq<Status>, i: nat, j: nat)
    requires StatusRun(run) && i <= j < |run| && run[i] != New
    ensures run[j] != New
    ensures run[i] != Triaging ==> run[j] != Triaging
  {
    if i < j {
      NeverNewAfter(run, i, j - 1);
      assert CanTransition(run[j - 1], run[j]);
      StepNeverBack(run[j - 1], run[j]);
    }
  }

  /** An incident never comes back to `new`, nor to `triaging`, after leaving it. */
  lemma IntakeIsNeverReentered(run: seq<Status>, i: nat, j: nat, k: nat)
    requires StatusRun(run) && i < j < k < |run| && run[i] != run[j] && (run[i] == New || run[i] == Triaging)
    ensures run[k] != run[i]
  {
    if run[i] == Triaging { NeverNewAfter(run, i, j); }
    NeverNewAfter(run, j, k);
  }

  /** Waiting on the plant is entered only from a raised MR, and waiting on the customer only from
      self-help. */
  lemma WaitsHaveOneDoor(run: seq<Status>, i: nat)
    requires StatusRun(run) && i + 1 < |run| && run[i] != run[i + 1]
    ensures run[i + 1] == AwaitingPlantRepair ==> run[i] == MrRaised
    ensures run[i + 1] == AwaitingCustomer ==> run[i] == SelfHelp
  {
  }

  /** Every seam is a walk the node table allows hop by hop. */
  lemma SeamsAreWalks(a: Status, b: Status)
    requires (a, b) in STAGE_TRANSITIONS
    ensures HopRun([a] + STAGE_TRANSITIONS[(a, b)] + [b]) && b !in Transitions(a) && a != b
  {
  }

  ghost predicate HopPath(run: seq<Status>, a: Status, b: Status) {
    run != [] && run[0] == a && run[|run| - 1] == b && HopRun(run)
  }

  lemma HopConcat(u: seq<Status>, v: seq<Status>, a: Status, b: Status, c: Status)
    requires HopPath(u, a, b) && HopPath(v, b, c)
    ensures HopPath(u + v[1..], a, c)
  {
    var r := u + v[1..];
    forall i | 0 <= i < |r| - 1 ensures r[i + 1] in Transitions(r[i]) {
      if i >= |u| - 1 { assert r[i] == v[i - |u| + 1] && r[i + 1] == v[i - |u| + 2]; }
    }
  }

  /** Seams and repeats add no reachability: whatever a run shows, single hops could have walked. */
  lemma {:induction false} SeamsAddNoReach(run: seq<Status>) returns (hops: seq<Status>)
    requires StatusRun(run) && run != []
    ensures HopPath(hops, run[0], run[|run| - 1])
  {
    var n := |run| - 1;
    if n == 0 {
      hops := [run[0]];
    } else {
      var before := SeamsAddNoReach(run[..n]);
      var a, b := run[n - 1], run[n];
      assert CanTransition(a, b);
      if a == b {
        hops := before;
      } else if b in Transitions(a) {
        HopConcat(before, [a, b], run[0], a, b);
        hops := before + [a, b][1..];
      } else {
        SeamsAreWalks(a, b);
        var walk := [a] + STAGE_TRANSITIONS[(a, b)] + [b];
        HopConcat(before, walk, run[0], a, b);
        hops := before + walk[1..];
      }
    }
  }

  /** Every incident that is not finished can still be closed. */
  lemma EveryOpenStatusCanClose(s: Status) returns (run: seq<Status>)
    requires !IsTerminal(s)
    ensures HopPath(run, s, Closed)
  {
    run := if s == Escalated then [s, Closed] else [s, Escalated, Closed];
  }

  /** The guard can always escalate an incident that is not finished, and never one that is. */
  lemma EscalationIsLegalIff(s: Status)
    ensures CanTransition(s, Escalated) <==> !IsTerminal(s)
  {
  }

  /** `advance_status`: none on an illegal transition. */
  function AdvanceStatus(current: Option<Status>, update: Option<Status>): Option<Option<Status>> {
    if update.None? then Some(current)
    else if current.None? then Some(update)
    else if CanTransition(current.value, update.value) then Some(update)
    else None
  }
}
