/** One job against one crew: which start times are tried, where the search stops, and why neither
    the pruned list of starts nor the early stop loses anything. */
module Search {
  import opened Orders
  import opened Constraints
  import opened Objective

  const SLOT_STEP: int := 5 * MINUTE
  const MAX_SLOT_STEPS: nat := 144

  datatype Attempt = Attempt(
    crewId: Id, start: Time, candidate: Candidate, score: Option<Score>, violations: seq<Violation>)

  /** `slot` with its times filled in: everything but the clock is fixed for one job and crew. */
  function At(slot: Candidate, start: Time): Candidate {
    slot.(start := start, end := start + slot.requirement.duration)
  }

  // -- candidate starts --------------------------------------------------------------------------

  predicate Overlaps(a: Window, b: Window) { Max(a.opens, b.opens) < Min(a.closes, b.closes) }

  function Overlap(a: Window, b: Window): Window { Window(Max(a.opens, b.opens), Min(a.closes, b.closes)) }

  function OverlapsWith(c: Window, buildings: seq<Window>): (r: seq<Window>)
    ensures forall w :: w in r <==> exists b :: b in buildings && Overlaps(c, b) && w == Overlap(c, b)
  {
    if buildings == [] then []
    else
      assert buildings == [buildings[0]] + buildings[1..];
      (if Overlaps(c, buildings[0]) then [Overlap(c, buildings[0])] else []) + OverlapsWith(c, buildings[1..])
  }

  function AllOverlaps(customers: seq<Window>, buildings: seq<Window>): (r: seq<Window>)
    ensures forall w :: w in r <==>
      exists c, b :: c in customers && b in buildings && Overlaps(c, b) && w == Overlap(c, b)
  {
    if customers == [] then []
    else
      assert customers == [customers[0]] + customers[1..];
      OverlapsWith(customers[0], buildings) + AllOverlaps(customers[1..], buildings)
  }

  predicate WindowLeq(a: Window, b: Window) { a.opens < b.opens || (a.opens == b.opens && a.closes <= b.closes) }

  /** Customer and building windows, intersected. */
  function Windows(customers: seq<Window>, buildings: seq<Window>): seq<Window> {
    if customers == [] then buildings
    else if buildings == [] then customers
    else Sort(AllOverlaps(customers, buildings), WindowLeq)
  }

  function Steps(earliest: Time, n: nat): (r: seq<Time>)
    ensures |r| == n && forall i :: 0 <= i < n ==> r[i] == earliest + SLOT_STEP * i
  {
    seq(n, i => earliest + SLOT_STEP * i)
  }

  /** Candidate starts in order: window openings when there are windows, fixed steps when not. */
  function WindowStarts(earliest: Time, windows: seq<Window>): (r: seq<Time>)
    ensures r != [] && r[0] == earliest
    ensures forall i, j :: 0 <= i < j < |r| ==> r[i] < r[j]
    ensures forall s :: s in r ==> s >= earliest
    ensures forall w :: w in windows && earliest <= w.closes ==> Max(earliest, w.opens) in r
  {
    if windows != [] then
      var r := SortedSet((set w | w in windows && earliest <= w.closes :: Max(earliest, w.opens)) + {earliest});
      assert earliest in r;
      assert forall s :: s in r ==> s >= earliest;
      r
    else
      var r := Steps(earliest, MAX_SLOT_STEPS);
      assert r[0] == earliest;
      r
  }

  /** Exactly which starts are tried: the earliest and the window openings not over by then, or, with no
      windows, twelve hours of five-minute steps. */
  lemma StartsAreExactly(earliest: Time, windows: seq<Window>, s: Time)
    ensures windows != [] ==>
      (s in WindowStarts(earliest, windows) <==>
        s == earliest || exists w :: w in windows && earliest <= w.closes && s == (if w.opens < earliest then earliest else w.opens))
    ensures windows == [] ==>
      (s in WindowStarts(earliest, windows) <==>
        earliest <= s < earliest + 12 * 60 * MINUTE && (s - earliest) % (5 * MINUTE) == 0)
  {
    if windows == [] { StepsAreExactly(earliest, s); } else { OpeningsAreExactly(earliest, windows, s); }
  }

  lemma OpeningsAreExactly(earliest: Time, windows: seq<Window>, s: Time)
    requires windows != []
    ensures s in WindowStarts(earliest, windows) <==>
      s == earliest || exists w :: w in windows && earliest <= w.closes && s == (if w.opens < earliest then earliest else w.opens)
  {
    var openings := set w | w in windows && earliest <= w.closes :: Max(earliest, w.opens);
    assert s in openings <==> exists w :: w in windows && earliest <= w.closes && s == Max(earliest, w.opens);
    assert s in WindowStarts(earliest, windows) <==> s in openings + {earliest};
  }

  lemma StepsAreExactly(earliest: Time, s: Time)
    ensures s in WindowStarts(earliest, []) <==>
      earliest <= s < earliest + 12 * 60 * MINUTE && (s - earliest) % (5 * MINUTE) == 0
  {
    var steps := Steps(earliest, MAX_SLOT_STEPS);
    hide Steps;
    if earliest <= s < earliest + 12 * 60 * MINUTE && (s - earliest) % (5 * MINUTE) == 0 {
      var i := (s - earliest) / (5 * MINUTE);
      assert steps[i] == s;
    }
    if s in steps {
      var i :| 0 <= i < |steps| && steps[i] == s;
      WholeSteps(s - earliest, i);
    }
  }

  lemma WholeSteps(span: int, i: nat)
    requires span == SLOT_STEP * i && i < MAX_SLOT_STEPS
    ensures 0 <= span < 12 * 60 * MINUTE && span % (5 * MINUTE) == 0
  {
  }

  // -- the search --------------------------------------------------------------------------------

  predicate Permanent(code: Code) {
    code in {Skill, CrewTypeCode, Equipment, Parts, Geography, Capacity, WorkOrderDependency}
  }

  predicate TooLate(c: Candidate) {
    c.requirement.latestFinish.Some? && c.end > c.requirement.latestFinish.value
  }

  function Evaluate(c: Candidate, p: Policy): Attempt {
    if FirstViolation(c, p).None? then Attempt(c.crew.id, c.start, c, Some(ScoreCandidate(c, p)), [])
    else Attempt(c.crew.id, c.start, c, None, AllViolations(c, p))
  }

  /** The attempts one crew gets: stops past the latest finish, at the first feasible start, or at a
      refusal no later start could clear. */
  function Tries(slot: Candidate, p: Policy, starts: seq<Time>): seq<Attempt> {
    if starts == [] then []
    else
      var c := At(slot, starts[0]);
      var v := FirstViolation(c, p);
      if TooLate(c) then []
      else if v.None? || Permanent(v.value.code) then [Evaluate(c, p)]
      else [Evaluate(c, p)] + Tries(slot, p, starts[1..])
  }

  method StartsForCrew(slot: Candidate, p: Policy, earliest: Time, windows: seq<Window>)
    returns (attempts: seq<Attempt>)
    ensures attempts == Tries(slot, p, WindowStarts(earliest, windows))
  {
    hide FirstViolation, Evaluate, WindowStarts;
    attempts := [];
    var starts := WindowStarts(earliest, windows);
    var i := 0;
    while i < |starts|
      invariant 0 <= i <= |starts|
      invariant attempts + Tries(slot, p, starts[i..]) == Tries(slot, p, starts)
    {
      var candidate := At(slot, starts[i]);
      if TooLate(candidate) { break; }
      var violation := FirstViolation(candidate, p);
      ghost var before := attempts;
      if violation.None? {
        attempts := attempts + [Evaluate(candidate, p)];
        break;
      }
      attempts := attempts + [Evaluate(candidate, p)];
      if Permanent(violation.value.code) { break; }
      assert starts[i..][1..] == starts[i + 1..];
      assert before + ([Evaluate(candidate, p)] + Tries(slot, p, starts[i + 1..])) == attempts + Tries(slot, p, starts[i + 1..]);
      i := i + 1;
    }
    assert i == |starts| ==> starts[i..] == [];
  }

  // -- what is acceptable ------------------------------------------------------------------------

  /** A start a crew could really take: all twelve constraints and the latest finish. */
  ghost predicate Acceptable(slot: Candidate, p: Policy, start: Time) {
    Feasible(At(slot, start), p) && !TooLate(At(slot, start))
  }

  /** The customer's windows either do not exist or are enforced. */
  predicate WindowsBind(r: Requirement, p: Policy) {
    r.customerWindows == [] || (p.respectWindows && r.accessRequired)
  }

  predicate Mainland(r: Requirement) { r.area != Some(RemoteIsland) }

  /** Whether a start meets the island cutoff; a mainland job has none. */
  predicate BeforeCutoff(r: Requirement, p: Policy, start: Time) { Mainland(r) || TimeOfDay(start) <= p.islandLatestStart }

  predicate OpensAt(ws: seq<Window>, m: Time) { exists w :: w in ws && w.opens == m < w.closes }

  /** A midnight well inside one customer window at which no customer window opens: the job would fit
      there, and the openings around it fall past the previous evening's cutoff. */
  predicate LostMidnight(r: Requirement, w: Window, m: Time) {
    && TimeOfDay(m) == 0 && w.opens < m && m + r.duration <= w.closes
    && (r.latestFinish.Some? ==> m + r.duration <= r.latestFinish.value)
    && !OpensAt(r.customerWindows, m)
  }

  /** The cutoff cannot come between a window's opening and the instants the job would fit it. */
  ghost predicate CutoffHarmless(r: Requirement, p: Policy) {
    || Mainland(r) || p.islandLatestStart >= DAY - 1
    || (r.customerWindows != [] && forall w, m :: w in r.customerWindows ==> !LostMidnight(r, w, m))
  }

  lemma PermanentIsTimeless(slot: Candidate, p: Policy, a: Time, b: Time)
    requires FirstViolation(At(slot, a), p).Some? && Permanent(FirstViolation(At(slot, a), p).value.code)
    ensures !Feasible(At(slot, b), p)
  {
    var code := FirstViolation(At(slot, a), p).value.code;
    CheckIsExact(code, At(slot, a), p);
    CheckIsExact(code, At(slot, b), p);
  }

  function LastOf(slot: Candidate, p: Policy, starts: seq<Time>): Attempt
    requires Tries(slot, p, starts) != []
  {
    Tries(slot, p, starts)[|Tries(slot, p, starts)| - 1]
  }

  /** The attempts are the verdicts on the first listed starts, none skipped, and they stop short of the
      list only at a start past the latest finish, after a feasible start, or after a refusal for skill,
      crew type, equipment, parts, geography, capacity or a dependency. */
  lemma {:induction false} TriesSkipNothing(slot: Candidate, p: Policy, starts: seq<Time>)
    ensures var n := |Tries(slot, p, starts)|;
      && n <= |starts|
      && (forall k :: 0 <= k < n ==> Tries(slot, p, starts)[k] == Evaluate(At(slot, starts[k]), p))
      && (n < |starts| ==>
           || TooLate(At(slot, starts[n]))
           || (n > 0 && var v := FirstViolation(At(slot, starts[n - 1]), p);
                v.None? || v.value.code in {Skill, CrewTypeCode, Equipment, Parts, Geography, Capacity, WorkOrderDependency}))
  {
    hide FirstViolation, Evaluate, TooLate;
    if starts != [] {
      TriesSkipNothing(slot, p, starts[1..]);
    }
  }

  /** Each attempt is the verdict on one listed start in time, and only the last can be feasible. */
  lemma {:induction false} TriesAreVerdicts(slot: Candidate, p: Policy, starts: seq<Time>)
    ensures forall k :: 0 <= k < |Tries(slot, p, starts)| ==>
      var a := Tries(slot, p, starts)[k];
      && a == Evaluate(At(slot, a.start), p) && a.start in starts && !TooLate(At(slot, a.start))
      && (a.score.Some? ==> k == |Tries(slot, p, starts)| - 1)
  {
    hide FirstViolation, AllViolations, TooLate;
    if starts != [] {
      TriesAreVerdicts(slot, p, starts[1..]);
      assert starts == [starts[0]] + starts[1..];
    }
  }

  /** An acceptable listed start is never passed over. */
  lemma {:induction false} TriesReachAcceptable(slot: Candidate, p: Policy, starts: seq<Time>, s: Time)
    requires forall i, j :: 0 <= i < j < |starts| ==> starts[i] < starts[j]
    requires s in starts && Acceptable(slot, p, s)
    ensures Tries(slot, p, starts) != [] && LastOf(slot, p, starts).score.Some? && LastOf(slot, p, starts).start <= s
  {
    hide AllViolations, Feasible, Check, FirstViolation, TooLate;
    var c := At(slot, starts[0]);
    ReportsAgree(c, p);
    assert starts == [starts[0]] + starts[1..];
    FirstIsLeast(starts, s);
    EarlierIsInTime(slot, p, starts[0], s);
    if FirstViolation(c, p).Some? {
      if Permanent(FirstViolation(c, p).value.code) {
        PermanentIsTimeless(slot, p, starts[0], s);
      } else {
        TriesReachAcceptable(slot, p, starts[1..], s);
      }
    }
  }

  lemma FirstIsLeast(starts: seq<Time>, s: Time)
    requires s in starts && forall i, j :: 0 <= i < j < |starts| ==> starts[i] < starts[j]
    ensures starts[0] <= s
  {
    var k :| 0 <= k < |starts| && starts[k] == s;
  }

  lemma EarlierIsInTime(slot: Candidate, p: Policy, a: Time, b: Time)
    requires a <= b && Acceptable(slot, p, b)
    ensures !TooLate(At(slot, a))
  {
    hide Feasible;
  }

  /** Over any ascending list of starts, the search yields a feasible attempt exactly when some
      listed start is acceptable, it is the earliest such start, and it is the last attempt. */
  lemma TriesFindEarliest(slot: Candidate, p: Policy, starts: seq<Time>)
    requires forall i, j :: 0 <= i < j < |starts| ==> starts[i] < starts[j]
    ensures forall k :: 0 <= k < |Tries(slot, p, starts)| ==>
      var a := Tries(slot, p, starts)[k];
      && a == Evaluate(At(slot, a.start), p) && a.start in starts && !TooLate(At(slot, a.start))
      && (a.score.Some? ==> k == |Tries(slot, p, starts)| - 1)
    ensures forall s :: s in starts && Acceptable(slot, p, s) ==>
      && Tries(slot, p, starts) != []
      && Tries(slot, p, starts)[|Tries(slot, p, starts)| - 1].score.Some?
      && Tries(slot, p, starts)[|Tries(slot, p, starts)| - 1].start <= s
  {
    hide Tries, Acceptable, Evaluate, TooLate;
    TriesAreVerdicts(slot, p, starts);
    forall s | s in starts && Acceptable(slot, p, s)
      ensures Tries(slot, p, starts) != [] && LastOf(slot, p, starts).score.Some? && LastOf(slot, p, starts).start <= s
    {
      TriesReachAcceptable(slot, p, starts, s);
    }
  }

  // -- nothing is lost ---------------------------------------------------------------------------

  /** A job fits an intersected window exactly when it fits a customer window and a building window,
      an empty list asking nothing. */
  lemma IntersectionIsExact(customers: seq<Window>, buildings: seq<Window>, start: Time, end: Time)
    requires start < end && (customers != [] || buildings != [])
    ensures WithinAny(start, end, Windows(customers, buildings)) <==>
      && (customers != [] ==> WithinAny(start, end, customers))
      && (buildings != [] ==> WithinAny(start, end, buildings))
  {
    hide Sort, AllOverlaps;
    if customers != [] && buildings != [] {
      SameMembers(AllOverlaps(customers, buildings), Windows(customers, buildings));
      if WithinAny(start, end, customers) && WithinAny(start, end, buildings) {
        var c :| c in customers && Within(c, start, end);
        var b :| b in buildings && Within(b, start, end);
        FitsOverlap(customers, buildings, c, b, start, end);
      }
      if WithinAny(start, end, Windows(customers, buildings)) {
        var w :| w in Windows(customers, buildings) && Within(w, start, end);
        FitsBoth(customers, buildings, w, start, end);
      }
    }
  }

  lemma FitsOverlap(customers: seq<Window>, buildings: seq<Window>, c: Window, b: Window, start: Time, end: Time)
    requires start < end && c in customers && b in buildings && Within(c, start, end) && Within(b, start, end)
    ensures Overlap(c, b) in AllOverlaps(customers, buildings) && Within(Overlap(c, b), start, end)
  {
    assert Overlaps(c, b);
  }

  lemma FitsBoth(customers: seq<Window>, buildings: seq<Window>, w: Window, start: Time, end: Time)
    requires w in AllOverlaps(customers, buildings) && Within(w, start, end)
    ensures WithinAny(start, end, customers) && WithinAny(start, end, buildings)
  {
    var c, b :| c in customers && b in buildings && Overlaps(c, b) && w == Overlap(c, b);
    assert Within(c, start, end) && Within(b, start, end);
  }

  function SlotWindows(slot: Candidate): seq<Window> {
    Windows(slot.requirement.customerWindows, slot.context.buildingWindows)
  }

  lemma AcceptableMeans(slot: Candidate, p: Policy, s: Time)
    ensures Acceptable(slot, p, s) <==>
      && StaticOk(slot, p) && !TooLate(At(slot, s)) && BeforeCutoff(slot.requirement, p, s)
      && Clear(WorkingHours, At(slot, s), p) && Clear(CustomerAccess, At(slot, s), p) && Clear(BuildingAccess, At(slot, s), p)
  {
    hide Check, Feasible;
    FeasibleMeans(At(slot, s), p);
  }

  lemma LastMidnight(t: Time) returns (m: Time)
    ensures m == t - TimeOfDay(t) && m <= t && TimeOfDay(m) == 0 <= TimeOfDay(t) < DAY
  {
    m := t - TimeOfDay(t);
    assert m == (t / DAY) * DAY;
  }

  lemma MidnightBetween(l: Time, s: Time) returns (m: Time)
    requires l <= s && TimeOfDay(s) < TimeOfDay(l)
    ensures l < m <= s && TimeOfDay(m) == 0
  {
    m := LastMidnight(s);
    if m <= l { WithinTheDay(m, l); }
  }

  lemma WithinTheDay(m: Time, l: Time)
    requires TimeOfDay(m) == 0 && m <= l < m + DAY
    ensures TimeOfDay(l) == l - m
  {
    assert m == (m / DAY) * DAY && l == (l / DAY) * DAY + l % DAY;
    assert (l / DAY - m / DAY) * DAY == (l - m) - l % DAY;
  }

  predicate Windowed(slot: Candidate) { slot.requirement.customerWindows != [] || slot.context.buildingWindows != [] }

  lemma WindowsHold(slot: Candidate, p: Policy, s: Time)
    requires WindowsBind(slot.requirement, p) && slot.requirement.duration > 0 && Windowed(slot)
    requires WithinAny(s, s + slot.requirement.duration, SlotWindows(slot))
    ensures slot.requirement.customerWindows != [] ==> Clear(CustomerAccess, At(slot, s), p)
    ensures Clear(BuildingAccess, At(slot, s), p)
  {
    hide Windows;
    IntersectionIsExact(slot.requirement.customerWindows, slot.context.buildingWindows, s, s + slot.requirement.duration);
  }

  lemma WindowHolding(slot: Candidate, p: Policy, s: Time) returns (w: Window)
    requires WindowsBind(slot.requirement, p) && slot.requirement.duration > 0 && Acceptable(slot, p, s) && Windowed(slot)
    ensures w in SlotWindows(slot) && Within(w, s, s + slot.requirement.duration)
  {
    hide Windows, Acceptable;
    AcceptableMeans(slot, p, s);
    IntersectionIsExact(slot.requirement.customerWindows, slot.context.buildingWindows, s, s + slot.requirement.duration);
    w :| w in SlotWindows(slot) && Within(w, s, s + slot.requirement.duration);
  }

  /** Moving earlier inside the shift and one window keeps a start acceptable, the cutoff apart. */
  lemma EarlierIsAcceptable(slot: Candidate, p: Policy, w: Window, t: Time, s: Time)
    requires WindowsBind(slot.requirement, p) && slot.requirement.duration > 0 && Acceptable(slot, p, s)
    requires slot.crew.availableFrom <= t <= s && BeforeCutoff(slot.requirement, p, t)
    requires Windowed(slot) ==> w in SlotWindows(slot) && Within(w, t, t + slot.requirement.duration)
    ensures Acceptable(slot, p, t)
  {
    hide Windows, Acceptable, BeforeCutoff;
    AcceptableMeans(slot, p, s);
    AcceptableMeans(slot, p, t);
    if Windowed(slot) { WindowsHold(slot, p, t); }
  }

  lemma MidnightOpens(r: Requirement, p: Policy, c: Window, m: Time)
    requires CutoffHarmless(r, p) && !Mainland(r) && p.islandLatestStart < DAY - 1 && c in r.customerWindows
    requires TimeOfDay(m) == 0 && c.opens < m && m + r.duration <= c.closes
    requires r.latestFinish.Some? ==> m + r.duration <= r.latestFinish.value
    ensures OpensAt(r.customerWindows, m)
  {
    hide TimeOfDay, OpensAt;
    assert !LostMidnight(r, c, m);
  }

  /** A window both lists share and the customer window it lies in; a building window when there are any. */
  lemma WindowSources(slot: Candidate, w: Window) returns (c: Window, b: Window)
    requires w in SlotWindows(slot) && slot.requirement.customerWindows != []
    ensures c in slot.requirement.customerWindows && c.opens <= w.opens && w.closes <= c.closes
    ensures slot.context.buildingWindows != [] ==>
      b in slot.context.buildingWindows && b.opens <= w.opens && w.closes <= b.closes
  {
    hide Sort;
    c, b := w, w;
    if slot.context.buildingWindows != [] {
      SameMembers(AllOverlaps(slot.requirement.customerWindows, slot.context.buildingWindows), SlotWindows(slot));
      c, b :| c in slot.requirement.customerWindows && b in slot.context.buildingWindows && Overlaps(c, b) && w == Overlap(c, b);
    }
  }

  lemma OpeningIsShared(slot: Candidate, d: Window, b: Window)
    requires d in slot.requirement.customerWindows && d.opens < d.closes
    requires slot.context.buildingWindows != [] ==>
      b in slot.context.buildingWindows && b.opens < d.opens && d.opens < b.closes
    ensures exists w :: w in SlotWindows(slot) && w.opens == d.opens && d.opens < w.closes
  {
    hide Sort;
    if slot.context.buildingWindows == [] {
      assert d in SlotWindows(slot);
    } else {
      SameMembers(AllOverlaps(slot.requirement.customerWindows, slot.context.buildingWindows), SlotWindows(slot));
      assert Overlaps(d, b) && Overlap(d, b) in SlotWindows(slot);
    }
  }

  /** Where the opening is past the cutoff, the midnight in between is itself an opening. */
  lemma MidnightIsListed(slot: Candidate, p: Policy, earliest: Time, w: Window, m: Time, s: Time)
    requires slot.requirement.customerWindows != [] && CutoffHarmless(slot.requirement, p) && slot.requirement.duration > 0
    requires !Mainland(slot.requirement) && p.islandLatestStart < DAY - 1
    requires w in SlotWindows(slot) && Within(w, s, s + slot.requirement.duration) && !TooLate(At(slot, s))
    requires Max(earliest, w.opens) < m <= s && TimeOfDay(m) == 0
    ensures m in WindowStarts(earliest, SlotWindows(slot))
  {
    hide WindowStarts, TimeOfDay, Windows, CutoffHarmless;
    var c, b := WindowSources(slot, w);
    MidnightOpens(slot.requirement, p, c, m);
    var d :| d in slot.requirement.customerWindows && d.opens == m < d.closes;
    OpeningIsShared(slot, d, b);
  }

  /** Every acceptable start, listed or not, has an acceptable listed start no later than it. */
  lemma ListedStartsSuffice(slot: Candidate, p: Policy, earliest: Time, s: Time) returns (listed: Time)
    requires WindowsBind(slot.requirement, p) && CutoffHarmless(slot.requirement, p) && slot.requirement.duration > 0
    requires slot.crew.availableFrom <= earliest <= s && Acceptable(slot, p, s)
    ensures listed in WindowStarts(earliest, SlotWindows(slot))
    ensures earliest <= listed <= s && Acceptable(slot, p, listed)
  {
    hide WindowStarts, Windows, Acceptable, TimeOfDay, LostMidnight, TooLate;
    var r, d := slot.requirement, slot.requirement.duration;
    AcceptableMeans(slot, p, s);
    var w := Window(0, 0);
    if !Windowed(slot) {
      listed := earliest;
      assert WindowStarts(earliest, SlotWindows(slot))[0] == earliest;
    } else {
      w := WindowHolding(slot, p, s);
      listed := Max(earliest, w.opens);
    }
    if !BeforeCutoff(r, p, listed) {
      AnyTimeOfDay(listed);
      AnyTimeOfDay(s);
      var m := MidnightBetween(listed, s);
      MidnightIsListed(slot, p, earliest, w, m, s);
      listed := m;
    }
    EarlierIsAcceptable(slot, p, w, listed, s);
  }

  lemma AnyTimeOfDay(t: Time)
    ensures 0 <= TimeOfDay(t) < DAY
  {
  }

  ghost predicate Found(attempts: seq<Attempt>) { exists a :: a in attempts && a.score.Some? }

  function CrewTries(slot: Candidate, p: Policy, earliest: Time): seq<Attempt> {
    Tries(slot, p, WindowStarts(earliest, SlotWindows(slot)))
  }

  /** The search finds a start exactly when any real instant from `earliest` on would do, and the
      start it finds is the earliest of them all. */
  lemma {:induction false} SearchIsComplete(slot: Candidate, p: Policy, earliest: Time)
    requires WindowsBind(slot.requirement, p) && CutoffHarmless(slot.requirement, p) && slot.requirement.duration > 0
    requires slot.crew.availableFrom <= earliest
    ensures Found(CrewTries(slot, p, earliest)) <==> exists s :: s >= earliest && Acceptable(slot, p, s)
    ensures forall a :: a in CrewTries(slot, p, earliest) && a.score.Some? ==>
      a.start >= earliest && Acceptable(slot, p, a.start)
    ensures forall a, s :: a in CrewTries(slot, p, earliest) && a.score.Some? && s >= earliest && Acceptable(slot, p, s) ==>
      a.start <= s
  {
    hide Acceptable, WindowStarts, Tries, Evaluate, WindowsBind;
    var starts := WindowStarts(earliest, SlotWindows(slot));
    TriesFindEarliest(slot, p, starts);
    forall a | a in CrewTries(slot, p, earliest) && a.score.Some?
      ensures a.start >= earliest && Acceptable(slot, p, a.start)
    {
      ScoredIsAcceptable(slot, p, starts, a);
    }
    forall s | s >= earliest && Acceptable(slot, p, s)
      ensures Found(CrewTries(slot, p, earliest))
      ensures forall a :: a in CrewTries(slot, p, earliest) && a.score.Some? ==> a.start <= s
    {
      var listed := ListedStartsSuffice(slot, p, earliest, s);
      var last := CrewTries(slot, p, earliest)[|CrewTries(slot, p, earliest)| - 1];
      assert last in CrewTries(slot, p, earliest);
    }
  }

  lemma ScoredIsAcceptable(slot: Candidate, p: Policy, starts: seq<Time>, a: Attempt)
    requires forall i, j :: 0 <= i < j < |starts| ==> starts[i] < starts[j]
    requires a in Tries(slot, p, starts) && a.score.Some?
    ensures a.start in starts && Acceptable(slot, p, a.start) && a == Evaluate(At(slot, a.start), p)
  {
    hide Tries, Check, Feasible;
    TriesFindEarliest(slot, p, starts);
    ReportsAgree(At(slot, a.start), p);
  }

  // -- exactly when ------------------------------------------------------------------------------

  function Before(ws: seq<Window>): (t: Time)
    ensures forall w :: w in ws ==> t < w.opens
  {
    if ws == [] then 0
    else
      assert ws == [ws[0]] + ws[1..];
      Min(Before(ws[1..]), ws[0].opens - 1)
  }

  /** A crew with everything the job names, free between two instants, and nothing else in the way. */
  function Willing(r: Requirement, buildings: seq<Window>, from: Time, until: Time): Candidate {
    Candidate(r,
      CrewSlot(0, r.crewType, r.skills, from, until, Position(None, None), [], 1, r.parts, r.equipment),
      JobContext(None, false, 1, false, None, false, buildings, [], true), 0, 0, Travel(0, Unknown), 0, {})
  }

  lemma WillingIsAble(r: Requirement, p: Policy, buildings: seq<Window>, from: Time, until: Time)
    requires p.maxJobsPerShift >= 1
    ensures StaticOk(Willing(r, buildings, from, until), p)
  {
  }

  ghost predicate SearchesFully(r: Requirement, p: Policy) {
    forall slot: Candidate, earliest: Time :: slot.requirement == r && slot.crew.availableFrom <= earliest ==>
      (Found(CrewTries(slot, p, earliest)) <==> exists s :: s >= earliest && Acceptable(slot, p, s))
  }

  /** One building opening, exactly as long as the job, before any customer window and one tick after
      the crew is free. */
  function Hidden(r: Requirement, opens: Time): Candidate {
    Willing(r, [Window(opens, opens + r.duration)], opens - 1, opens + r.duration)
  }

  lemma OnlyTheOpeningWorks(r: Requirement, p: Policy, opens: Time, s: Time)
    requires !WindowsBind(r, p) && BeforeCutoff(r, p, opens) && r.duration > 0 && s >= opens - 1
    requires p.maxJobsPerShift >= 1 && p.maxOvertimeMinutes >= 0
    requires r.latestFinish.Some? ==> opens + r.duration <= r.latestFinish.value
    ensures Acceptable(Hidden(r, opens), p, s) <==> s == opens
  {
    var building := Window(opens, opens + r.duration);
    WillingIsAble(r, p, [building], opens - 1, opens + r.duration);
    hide Check, Feasible, StaticOk, Acceptable, BeforeCutoff, TimeOfDay, Missing;
    AcceptableMeans(Hidden(r, opens), p, s);
    assert Clear(BuildingAccess, At(Hidden(r, opens), s), p) ==> Within(building, s, s + r.duration);
    if s == opens {
      assert building in [building] && Within(building, s, s + r.duration);
    }
  }

  lemma EarlyBuildingMeetsNoCustomer(customers: seq<Window>, building: Window)
    requires customers != [] && forall w :: w in customers ==> building.closes <= w.opens
    ensures Windows(customers, [building]) == []
  {
    var overlaps := AllOverlaps(customers, [building]);
    NoMembers(overlaps);
  }

  /** The instant after the earliest start is tried only where a window opens at it. */
  lemma NextInstantIsSkipped(earliest: Time, windows: seq<Window>)
    requires forall w :: w in windows ==> w.opens != earliest + 1
    ensures earliest + 1 !in WindowStarts(earliest, windows)
  {
  }

  lemma OnlyOneStart(slot: Candidate, p: Policy, earliest: Time, only: Time)
    requires slot.crew.availableFrom <= earliest <= only && Acceptable(slot, p, only)
    requires forall s :: s >= earliest && Acceptable(slot, p, s) ==> s == only
    requires only !in WindowStarts(earliest, SlotWindows(slot))
    ensures !SearchesFully(slot.requirement, p)
  {
    hide Tries, Evaluate, Acceptable, WindowStarts;
    forall a | a in CrewTries(slot, p, earliest) ensures a.score.None? {
      if a.score.Some? { ScoredIsAcceptable(slot, p, WindowStarts(earliest, SlotWindows(slot)), a); }
    }
    assert !Found(CrewTries(slot, p, earliest));
  }

  /** A customer window that is stated and not enforced can hide the only start there is: the
      building opens where no customer window overlaps, and the five-minute steps walk past it. */
  lemma UnenforcedWindowsHideAStart(r: Requirement, p: Policy)
    requires !WindowsBind(r, p) && (Mainland(r) || p.islandLatestStart >= 0) && r.duration > 0
    requires p.maxJobsPerShift >= 1 && p.maxOvertimeMinutes >= 0
    ensures !SearchesFully(r, p)
  {
    hide Acceptable, WindowStarts, Windows, TimeOfDay, SearchesFully;
    var cap := Before(r.customerWindows);
    var opens := LastMidnight((if r.latestFinish.Some? then Min(cap, r.latestFinish.value) else cap) - r.duration);
    forall s | s >= opens - 1 ensures Acceptable(Hidden(r, opens), p, s) <==> s == opens { OnlyTheOpeningWorks(r, p, opens, s); }
    EarlyBuildingMeetsNoCustomer(r.customerWindows, Window(opens, opens + r.duration));
    NextInstantIsSkipped(opens - 1, []);
    OnlyOneStart(Hidden(r, opens), p, opens - 1, opens);
  }

  /** One building opening from the last instant of a day until the job would be done from midnight. */
  function Overnight(r: Requirement, m: Time): Candidate {
    Willing(r, [Window(m - 1, m + r.duration)], m - 1, m + r.duration)
  }

  /** No instant at all is acceptable: the cutoff lies below any time of day, or the customer must be in
      and has named no window. */
  predicate Hopeless(r: Requirement, p: Policy) {
    || (!Mainland(r) && p.islandLatestStart < 0)
    || (r.customerWindows == [] && p.respectWindows && r.accessRequired)
  }

  predicate FitsMidnight(r: Requirement, m: Time) {
    && TimeOfDay(m) == 0 && (r.latestFinish.Some? ==> m + r.duration <= r.latestFinish.value)
    && (r.customerWindows != [] ==> exists w :: w in r.customerWindows && LostMidnight(r, w, m))
  }

  lemma OnlyMidnightWorks(r: Requirement, p: Policy, m: Time, s: Time)
    requires WindowsBind(r, p) && !Mainland(r) && p.islandLatestStart < DAY - 1 && !Hopeless(r, p) && r.duration > 0 && s >= m - 1
    requires p.maxJobsPerShift >= 1 && p.maxOvertimeMinutes >= 0 && FitsMidnight(r, m)
    ensures Acceptable(Overnight(r, m), p, s) <==> s == m
  {
    var building := Window(m - 1, m + r.duration);
    var slot := Overnight(r, m);
    WillingIsAble(r, p, [building], m - 1, m + r.duration);
    assert TimeOfDay(m - 1) == DAY - 1;
    hide Check, Feasible, StaticOk, Acceptable;
    AcceptableMeans(slot, p, s);
    assert Clear(BuildingAccess, At(slot, s), p) ==> Within(building, s, s + r.duration);
    if s == m {
      assert building in [building] && Within(building, s, s + r.duration);
      if r.customerWindows != [] {
        var w :| w in r.customerWindows && LostMidnight(r, w, m);
        assert Within(w, s, s + r.duration);
      }
    }
  }

  lemma OverlapOpens(customers: seq<Window>, building: Window, w: Window, m: Time)
    requires w in AllOverlaps(customers, [building]) && building.opens < m
    ensures w.opens == m ==> OpensAt(customers, m)
  {
    var c, b :| c in customers && b in [building] && Overlaps(c, b) && w == Overlap(c, b);
  }

  /** A cutoff before the day's last instant loses a midnight start: the building opens past the cutoff
      and stays open, but only its opening is tried. */
  lemma CutoffHidesMidnight(r: Requirement, p: Policy, m: Time)
    requires WindowsBind(r, p) && !Mainland(r) && p.islandLatestStart < DAY - 1 && !Hopeless(r, p) && r.duration > 0
    requires p.maxJobsPerShift >= 1 && p.maxOvertimeMinutes >= 0 && FitsMidnight(r, m)
    ensures !SearchesFully(r, p)
  {
    hide Acceptable, WindowStarts, TimeOfDay, SearchesFully, Sort;
    var slot := Overnight(r, m);
    forall s | s >= m - 1 ensures Acceptable(slot, p, s) <==> s == m { OnlyMidnightWorks(r, p, m, s); }
    var building := slot.context.buildingWindows[0];
    if r.customerWindows != [] {
      SameMembers(AllOverlaps(r.customerWindows, [building]), SlotWindows(slot));
      forall w | w in SlotWindows(slot) ensures w.opens != m {
        OverlapOpens(r.customerWindows, building, w, m);
      }
    }
    NextInstantIsSkipped(m - 1, SlotWindows(slot));
    OnlyOneStart(slot, p, m - 1, m);
  }

  /** The pruned search loses nothing exactly when stated customer windows are enforced and no evening
      cutoff can fall inside them; or when there is nothing to lose. */
  lemma PruningIsLosslessIff(r: Requirement, p: Policy)
    requires r.duration > 0 && p.maxJobsPerShift >= 1 && p.maxOvertimeMinutes >= 0
    ensures SearchesFully(r, p) <==>
      (WindowsBind(r, p) && CutoffHarmless(r, p)) || Hopeless(r, p)
    ensures r.customerWindows == [] ==>
      (SearchesFully(r, p) <==> Mainland(r) || p.islandLatestStart >= DAY - 1 || Hopeless(r, p))
  {
    hide SearchesFully, TimeOfDay, LostMidnight;
    if Hopeless(r, p) {
      NothingToLose(r, p);
    } else if !WindowsBind(r, p) {
      UnenforcedWindowsHideAStart(r, p);
    } else if CutoffHarmless(r, p) {
      NothingIsLost(r, p);
    } else {
      var m := MidnightToLose(r, p);
      CutoffHidesMidnight(r, p, m);
    }
  }

  lemma MidnightToLose(r: Requirement, p: Policy) returns (m: Time)
    requires !CutoffHarmless(r, p)
    ensures FitsMidnight(r, m)
  {
    hide TimeOfDay;
    if r.customerWindows == [] {
      m := LastMidnight(if r.latestFinish.Some? then r.latestFinish.value - r.duration else 0);
    } else {
      var w, n :| w in r.customerWindows && LostMidnight(r, w, n);
      m := n;
    }
  }

  lemma NothingIsLost(r: Requirement, p: Policy)
    requires WindowsBind(r, p) && CutoffHarmless(r, p) && r.duration > 0
    ensures SearchesFully(r, p)
  {
    hide Acceptable, CrewTries, Found, CutoffHarmless, WindowsBind;
    forall slot: Candidate, earliest: Time | slot.requirement == r && slot.crew.availableFrom <= earliest
      ensures Found(CrewTries(slot, p, earliest)) <==> exists s :: s >= earliest && Acceptable(slot, p, s)
    {
      SearchIsComplete(slot, p, earliest);
    }
  }

  lemma NothingToLose(r: Requirement, p: Policy)
    requires Hopeless(r, p)
    ensures SearchesFully(r, p)
  {
    hide Acceptable, Tries, WindowStarts, Evaluate;
    forall slot: Candidate, s: Time | slot.requirement == r ensures !Acceptable(slot, p, s) {
      AcceptableMeans(slot, p, s);
      AnyTimeOfDay(s);
    }
    forall slot: Candidate, earliest: Time, a | slot.requirement == r && a in CrewTries(slot, p, earliest)
      ensures a.score.None?
    {
      if a.score.Some? { ScoredIsAcceptable(slot, p, WindowStarts(earliest, SlotWindows(slot)), a); }
    }
  }
}
