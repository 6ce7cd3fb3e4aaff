/** The records the dispatch solve reads and the twelve hard constraints over one candidate.
    Times are whole microseconds, the resolution of the source's `datetime`. */
module Constraints {
  import opened Orders
  import opened Strings

  type Id = int
  type Time = int

  const MINUTE: int := 60_000_000
  const DAY: int := 1440 * MINUTE

  datatype Window = Window(opens: Time, closes: Time)
  datatype CrewType = Clean | Dirty | Joint
  datatype Area = MetroMdu | CoastalCitySuburb | CentralMountainRural | RemoteIsland
  datatype Position = Position(lat: Option<real>, lon: Option<real>)

  datatype Requirement = Requirement(
    id: Id, crewType: CrewType, area: Option<Area>,
    skills: seq<string>, parts: seq<string>, equipment: seq<string>,
    duration: int, accessRequired: bool, customerWindows: seq<Window>,
    earliestStart: Option<Time>, latestFinish: Option<Time>, priority: real, location: Position)

  datatype CrewSlot = CrewSlot(
    id: Id, crewType: CrewType, skills: seq<string>,
    availableFrom: Time, availableUntil: Time, base: Position, areas: seq<Area>,
    maxJobs: int, parts: seq<string>, equipment: seq<string>)

  datatype JobContext = JobContext(
    slaRemaining: Option<real>, slaAtRisk: bool, affected: int, vulnerable: bool,
    wind: Option<real>, aerial: bool, buildingWindows: seq<Window>,
    dependsOn: seq<Id>, partsInStock: bool)

  datatype Basis = Routed | Estimated | Unknown
  datatype Travel = Travel(ticks: nat, basis: Basis)

  datatype Weights = Weights(sla: real, blast: real, travel: real, skill: real, appointment: real, vulnerable: real)

  datatype Policy = Policy(
    weights: Weights, maxJobsPerShift: int, maxOvertimeMinutes: int,
    requireCrewTypeMatch: bool, respectWindows: bool, aerialMaxWind: real,
    islandLatestStart: Time, networkThreshold: int)

  datatype Candidate = Candidate(
    requirement: Requirement, crew: CrewSlot, context: JobContext,
    start: Time, end: Time, travel: Travel, jobsAssigned: nat, scheduled: set<Id>)

  datatype Code =
    | Skill | CrewTypeCode | Equipment | Parts | WorkingHours | CustomerAccess
    | BuildingAccess | Safety | Geography | RemoteAccessWindow | Capacity | WorkOrderDependency
  {
    function Text(): string {
      match this
      case Skill => "skill"
      case CrewTypeCode => "crew_type"
      case Equipment => "equipment"
      case Parts => "parts"
      case WorkingHours => "working_hours"
      case CustomerAccess => "customer_access"
      case BuildingAccess => "building_access"
      case Safety => "safety"
      case Geography => "geography"
      case RemoteAccessWindow => "remote_access_window"
      case Capacity => "capacity"
      case WorkOrderDependency => "work_order_dependency"
    }
  }

  datatype Violation = Violation(code: Code, detail: string, shortfall: nat)

  /** The enumeration in declaration order. */
  const CODES: seq<Code> := [
    Skill, CrewTypeCode, Equipment, Parts, WorkingHours, CustomerAccess,
    BuildingAccess, Safety, Geography, RemoteAccessWindow, Capacity, WorkOrderDependency]

  /** The order the checks are evaluated in: permanent refusals first. */
  const ALL_CONSTRAINTS: seq<Code> := [
    Skill, CrewTypeCode, Equipment, Parts, Geography, Capacity, WorkOrderDependency,
    Safety, WorkingHours, CustomerAccess, BuildingAccess, RemoteAccessWindow]

  function Members<T>(xs: seq<T>): set<T> { set x | x in xs }

  function Missing(required: seq<string>, held: seq<string>): set<string> {
    Members(required) - Members(held)
  }

  predicate Within(w: Window, start: Time, end: Time) { w.opens <= start && end <= w.closes }

  /** Whether the whole job fits inside one window. */
  predicate WithinAny(start: Time, end: Time, windows: seq<Window>) {
    exists w :: w in windows && Within(w, start, end)
  }

  function CheckMissing(code: Code, missing: set<string>): Option<Violation> {
    if missing != {} then Some(Violation(code, "missing items", |missing|)) else None
  }

  function CheckCrewType(c: Candidate, p: Policy): Option<Violation> {
    if p.requireCrewTypeMatch && c.crew.crewType != c.requirement.crewType
    then Some(Violation(CrewTypeCode, "wrong crew type", 1)) else None
  }

  function CheckParts(c: Candidate): Option<Violation> {
    var missing := Missing(c.requirement.parts, c.crew.parts);
    if missing != {} then Some(Violation(Parts, "van stock lacks items", |missing|))
    else if c.requirement.parts != [] && !c.context.partsInStock
    then Some(Violation(Parts, "not in stock at any depot", |Members(c.requirement.parts)|))
    else None
  }

  function LatestEnd(crew: CrewSlot, p: Policy): Time {
    crew.availableUntil + p.maxOvertimeMinutes * MINUTE
  }

  function CheckWorkingHours(c: Candidate, p: Policy): Option<Violation> {
    if c.start < c.crew.availableFrom then Some(Violation(WorkingHours, "precedes shift start", 1))
    else if c.end > LatestEnd(c.crew, p) then Some(Violation(WorkingHours, "past shift end and overtime", 1))
    else None
  }

  function CheckCustomerAccess(c: Candidate, p: Policy): Option<Violation> {
    if !p.respectWindows || !c.requirement.accessRequired then None
    else if c.requirement.customerWindows == [] then Some(Violation(CustomerAccess, "no availability window", 1))
    else if !WithinAny(c.start, c.end, c.requirement.customerWindows)
    then Some(Violation(CustomerAccess, "outside the customer windows", 1))
    else None
  }

  function CheckBuildingAccess(c: Candidate): Option<Violation> {
    if c.context.buildingWindows != [] && !WithinAny(c.start, c.end, c.context.buildingWindows)
    then Some(Violation(BuildingAccess, "outside the building windows", 1)) else None
  }

  function CheckSafety(c: Candidate, p: Policy): Option<Violation> {
    if !c.context.aerial || c.context.wind.None? then None
    else if c.context.wind.value > p.aerialMaxWind then Some(Violation(Safety, "wind above the aerial limit", 1))
    else None
  }

  function CheckGeography(c: Candidate): Option<Violation> {
    if c.requirement.area.Some? && c.crew.areas != [] && c.requirement.area.value !in c.crew.areas
    then Some(Violation(Geography, "area not covered", 1)) else None
  }

  function TimeOfDay(t: Time): Time { t % DAY }

  function CheckRemoteAccessWindow(c: Candidate, p: Policy): Option<Violation> {
    if c.requirement.area != Some(RemoteIsland) then None
    else if TimeOfDay(c.start) > p.islandLatestStart
    then Some(Violation(RemoteAccessWindow, "past the island cutoff", 1))
    else None
  }

  function Limit(crew: CrewSlot, p: Policy): int {
    if crew.maxJobs < p.maxJobsPerShift then crew.maxJobs else p.maxJobsPerShift
  }

  function CheckCapacity(c: Candidate, p: Policy): Option<Violation> {
    if c.jobsAssigned >= Limit(c.crew, p) then Some(Violation(Capacity, "at the job limit", 1)) else None
  }

  function Unmet(c: Candidate): set<Id> { Members(c.context.dependsOn) - c.scheduled }

  function CheckWorkOrderDependency(c: Candidate): Option<Violation> {
    if Unmet(c) != {}
    then Some(Violation(WorkOrderDependency, "depends on unscheduled work", 1)) else None
  }

  function Check(code: Code, c: Candidate, p: Policy): (v: Option<Violation>)
    ensures v.Some? ==> v.value.code == code && v.value.shortfall >= 1
  {
    match code
    case Skill => CheckMissing(Skill, Missing(c.requirement.skills, c.crew.skills))
    case CrewTypeCode => CheckCrewType(c, p)
    case Equipment => CheckMissing(Equipment, Missing(c.requirement.equipment, c.crew.equipment))
    case Parts =>
      assert c.requirement.parts != [] ==> c.requirement.parts[0] in Members(c.requirement.parts);
      CheckParts(c)
    case WorkingHours => CheckWorkingHours(c, p)
    case CustomerAccess => CheckCustomerAccess(c, p)
    case BuildingAccess => CheckBuildingAccess(c)
    case Safety => CheckSafety(c, p)
    case Geography => CheckGeography(c)
    case RemoteAccessWindow => CheckRemoteAccessWindow(c, p)
    case Capacity => CheckCapacity(c, p)
    case WorkOrderDependency => CheckWorkOrderDependency(c)
  }

  function FirstOf(codes: seq<Code>, c: Candidate, p: Policy): (v: Option<Violation>)
    ensures v.None? <==> forall code :: code in codes ==> Check(code, c, p).None?
    ensures v.Some? ==> v.value.code in codes && Check(v.value.code, c, p) == v
  {
    if codes == [] then None
    else
      var v := Check(codes[0], c, p);
      assert codes == [codes[0]] + codes[1..];
      if v.Some? then v else FirstOf(codes[1..], c, p)
  }

  /** The first refusal in evaluation order, or none when the candidate is feasible. */
  function FirstViolation(c: Candidate, p: Policy): Option<Violation> { FirstOf(ALL_CONSTRAINTS, c, p) }

  function AllOf(codes: seq<Code>, c: Candidate, p: Policy): (vs: seq<Violation>)
    ensures forall v :: v in vs ==> v.code in codes && Check(v.code, c, p) == Some(v)
    ensures forall code :: code in codes && Check(code, c, p).Some? ==> Check(code, c, p).value in vs
    ensures FirstOf(codes, c, p) == if vs == [] then None else Some(vs[0])
  {
    if codes == [] then []
    else
      assert codes == [codes[0]] + codes[1..];
      var v := Check(codes[0], c, p);
      (if v.Some? then [v.value] else []) + AllOf(codes[1..], c, p)
  }

  function AllViolations(c: Candidate, p: Policy): seq<Violation> { AllOf(ALL_CONSTRAINTS, c, p) }

  /** All twelve checks clear. */
  ghost predicate Feasible(c: Candidate, p: Policy) { forall code :: Check(code, c, p).None? }

  lemma EveryCodeIsChecked(code: Code)
    ensures code in ALL_CONSTRAINTS && code in CODES
  {
  }

  /** The three ways of reporting a candidate agree: no first refusal, an empty list, and twelve
      clear checks are one fact, and the first refusal heads the list. */
  lemma {:induction false} ReportsAgree(c: Candidate, p: Policy)
    ensures FirstViolation(c, p).None? <==> Feasible(c, p)
    ensures AllViolations(c, p) == [] <==> Feasible(c, p)
    ensures FirstViolation(c, p) == if AllViolations(c, p) == [] then None else Some(AllViolations(c, p)[0])
    ensures forall v :: v in AllViolations(c, p) <==> Check(v.code, c, p) == Some(v)
  {
    forall code: Code ensures code in ALL_CONSTRAINTS { EveryCodeIsChecked(code); }
  }

  /** What each constraint asks of a candidate, stated without its check. */
  ghost predicate Clear(code: Code, c: Candidate, p: Policy) {
    match code
    case Skill => Members(c.requirement.skills) <= Members(c.crew.skills)
    case CrewTypeCode => p.requireCrewTypeMatch ==> c.crew.crewType == c.requirement.crewType
    case Equipment => Members(c.requirement.equipment) <= Members(c.crew.equipment)
    case Parts => Members(c.requirement.parts) <= Members(c.crew.parts) && (c.requirement.parts != [] ==> c.context.partsInStock)
    case Geography => c.requirement.area.Some? && c.crew.areas != [] ==> c.requirement.area.value in c.crew.areas
    case Capacity => c.jobsAssigned < c.crew.maxJobs && c.jobsAssigned < p.maxJobsPerShift
    case WorkOrderDependency => Members(c.context.dependsOn) <= c.scheduled
    case Safety => c.context.aerial && c.context.wind.Some? ==> c.context.wind.value <= p.aerialMaxWind
    case WorkingHours => c.crew.availableFrom <= c.start && c.end <= c.crew.availableUntil + p.maxOvertimeMinutes * MINUTE
    case CustomerAccess => p.respectWindows && c.requirement.accessRequired ==> WithinAny(c.start, c.end, c.requirement.customerWindows)
    case BuildingAccess => c.context.buildingWindows != [] ==> WithinAny(c.start, c.end, c.context.buildingWindows)
    case RemoteAccessWindow => c.requirement.area == Some(RemoteIsland) ==> TimeOfDay(c.start) <= p.islandLatestStart
  }

  /** Some window opens no later than the job starts and closes no earlier than it ends. */
  ghost predicate HasRoom(ws: seq<Window>, start: Time, end: Time) {
    exists i :: 0 <= i < |ws| && ws[i].opens <= start && end <= ws[i].closes
  }

  /** Fitting a list of windows is fitting one of them whole. */
  lemma HasRoomIff(ws: seq<Window>, start: Time, end: Time)
    ensures WithinAny(start, end, ws) <==> HasRoom(ws, start, end)
  {
    if w :| w in ws && Within(w, start, end) {
      var i :| 0 <= i < |ws| && ws[i] == w;
    }
    if i :| 0 <= i < |ws| && ws[i].opens <= start && end <= ws[i].closes {
      assert ws[i] in ws && Within(ws[i], start, end);
    }
  }

  /** The eight that do not read the clock. */
  ghost predicate StaticOk(c: Candidate, p: Policy) {
    && Clear(Skill, c, p) && Clear(CrewTypeCode, c, p) && Clear(Equipment, c, p) && Clear(Parts, c, p)
    && Clear(Geography, c, p) && Clear(Capacity, c, p) && Clear(WorkOrderDependency, c, p) && Clear(Safety, c, p)
  }

  /** The four that do. */
  ghost predicate TimesOk(c: Candidate, p: Policy) {
    && Clear(WorkingHours, c, p) && Clear(CustomerAccess, c, p)
    && Clear(BuildingAccess, c, p) && Clear(RemoteAccessWindow, c, p)
  }

  lemma NothingLeft<T>(a: set<T>, b: set<T>)
    ensures a - b == {} <==> a <= b
  {
    if a - b == {} {
      forall x | x in a ensures x in b { assert x in b || x in a - b; }
    }
  }

  /** Each check refuses exactly when its constraint is not met. */
  lemma CheckIsExact(code: Code, c: Candidate, p: Policy)
    ensures Check(code, c, p).None? <==> Clear(code, c, p)
  {
    match code
    case Skill => NothingLeft(Members(c.requirement.skills), Members(c.crew.skills));
    case Equipment => NothingLeft(Members(c.requirement.equipment), Members(c.crew.equipment));
    case Parts => NothingLeft(Members(c.requirement.parts), Members(c.crew.parts));
    case WorkOrderDependency => NothingLeft(Members(c.context.dependsOn), c.scheduled);
    case CrewTypeCode => case Geography => case Capacity => case Safety => case WorkingHours =>
    case CustomerAccess => case BuildingAccess => case RemoteAccessWindow =>
  }

  /** How badly a candidate misses: the items missing for skills and equipment, the items the van lacks,
      or all of them when no depot has them, for parts, and one for every other constraint. */
  lemma ShortfallMeans(code: Code, c: Candidate, p: Policy)
    requires Check(code, c, p).Some?
    ensures var r, crew := c.requirement, c.crew;
      Check(code, c, p).value.shortfall == match code
        case Skill => |set s | s in r.skills && s !in crew.skills|
        case Equipment => |set s | s in r.equipment && s !in crew.equipment|
        case Parts => if Members(r.parts) <= Members(crew.parts) then |Members(r.parts)| else |set s | s in r.parts && s !in crew.parts|
        case _ => 1
  {
    LackedIs(c.requirement.skills, c.crew.skills);
    LackedIs(c.requirement.equipment, c.crew.equipment);
    LackedIs(c.requirement.parts, c.crew.parts);
    NothingLeft(Members(c.requirement.parts), Members(c.crew.parts));
  }

  lemma LackedIs(required: seq<string>, held: seq<string>)
    ensures Missing(required, held) == set s | s in required && s !in held
  {
  }

  /** A candidate refused for several reasons is reported under one no later start could clear, if there is
      one: that is what lets the search stop. */
  lemma PermanentIsReportedFirst(c: Candidate, p: Policy, code: Code)
    requires code in {Skill, CrewTypeCode, Equipment, Parts, Geography, Capacity, WorkOrderDependency}
    requires Check(code, c, p).Some?
    ensures FirstViolation(c, p).Some?
    ensures FirstViolation(c, p).value.code in {Skill, CrewTypeCode, Equipment, Parts, Geography, Capacity, WorkOrderDependency}
  {
    hide Check, FirstOf;
    PermanentComesFirst();
    FirstOfEarlier(PERMANENT, REST, c, p, code);
  }

  const PERMANENT: seq<Code> := [Skill, CrewTypeCode, Equipment, Parts, Geography, Capacity, WorkOrderDependency]
  const REST: seq<Code> := [Safety, WorkingHours, CustomerAccess, BuildingAccess, RemoteAccessWindow]

  lemma PermanentComesFirst()
    ensures ALL_CONSTRAINTS == PERMANENT + REST
    ensures forall code :: code in PERMANENT <==>
      code in {Skill, CrewTypeCode, Equipment, Parts, Geography, Capacity, WorkOrderDependency}
  {
  }

  lemma FirstOfEarlier(a: seq<Code>, b: seq<Code>, c: Candidate, p: Policy, code: Code)
    requires code in a && Check(code, c, p).Some?
    ensures FirstOf(a + b, c, p).Some? && FirstOf(a + b, c, p).value.code in a
  {
    hide Check;
    FirstOfJoins(a, b, c, p);
    hide FirstOf;
  }

  lemma {:induction false} FirstOfJoins(a: seq<Code>, b: seq<Code>, c: Candidate, p: Policy)
    ensures FirstOf(a + b, c, p) == if FirstOf(a, c, p).Some? then FirstOf(a, c, p) else FirstOf(b, c, p)
  {
    hide Check;
    if a == [] {
      assert a + b == b;
    } else {
      assert (a + b)[1..] == a[1..] + b;
      FirstOfJoins(a[1..], b, c, p);
    }
  }

  /** Feasibility means exactly the stated conditions on crew, stock, dependencies and time. */
  lemma FeasibleMeans(c: Candidate, p: Policy)
    ensures Feasible(c, p) <==> StaticOk(c, p) && TimesOk(c, p)
  {
    CheckIsExact(Skill, c, p); CheckIsExact(CrewTypeCode, c, p); CheckIsExact(Equipment, c, p);
    CheckIsExact(Parts, c, p); CheckIsExact(Geography, c, p); CheckIsExact(Capacity, c, p);
    CheckIsExact(WorkOrderDependency, c, p); CheckIsExact(Safety, c, p); CheckIsExact(WorkingHours, c, p);
    CheckIsExact(CustomerAccess, c, p); CheckIsExact(BuildingAccess, c, p); CheckIsExact(RemoteAccessWindow, c, p);
  }

  function JoinCodes(codes: seq<Code>): string {
    if codes == [] then "" else if |codes| == 1 then codes[0].Text()
    else codes[0].Text() + "," + JoinCodes(codes[1..])
  }

  function SatisfiedIn(codes: seq<Code>, violated: set<Code>): (r: seq<Code>)
    ensures violated == {} ==> r == codes
    ensures forall code :: code in r <==> code in codes && code !in violated
  {
    if codes == [] then []
    else
      assert codes == [codes[0]] + codes[1..];
      (if codes[0] in violated then [] else [codes[0]]) + SatisfiedIn(codes[1..], violated)
  }

  function SatisfiedCodes(c: Candidate, p: Policy): seq<Code> {
    SatisfiedIn(CODES, set v | v in AllViolations(c, p) :: v.code)
  }

  lemma {:induction false} SatisfiedAreTheRest(c: Candidate, p: Policy)
    ensures forall code :: code in SatisfiedCodes(c, p) <==> Check(code, c, p).None?
  {
    forall code ensures code in SatisfiedCodes(c, p) <==> Check(code, c, p).None? {
      EveryCodeIsChecked(code);
      ReportsAgree(c, p);
      if Check(code, c, p).Some? { assert Check(code, c, p).value in AllViolations(c, p); }
    }
  }

  // -- explanations ------------------------------------------------------------------------------

  function Partition(s: string): (head: string)
    ensures ':' !in head
    ensures head <= s && (|head| < |s| ==> s[|head|] == ':')
  {
    if s == [] || s[0] == ':' then ""
    else
      assert s == [s[0]] + s[1..];
      [s[0]] + Partition(s[1..])
  }

  function CodeNamed(codes: seq<Code>, text: string): (r: Option<Code>)
    ensures r.Some? ==> r.value in codes && r.value.Text() == text
    ensures r.None? ==> forall code :: code in codes ==> code.Text() != text
  {
    if codes == [] then None
    else if codes[0].Text() == text then Some(codes[0])
    else
      assert codes == [codes[0]] + codes[1..];
      CodeNamed(codes[1..], text)
  }

  /** Reads the code back out of an explanation; none when it carries none. */
  function BlockingCode(explanation: string): Option<Code> {
    CodeNamed(CODES, Strip(Partition(explanation)))
  }

  function Render(v: Violation): string { v.code.Text() + ": " + v.detail }

  lemma {:induction false} PartitionAtColon(head: string, tail: string)
    requires ':' !in head && tail != [] && tail[0] == ':'
    ensures Partition(head + tail) == head
  {
    var s := head + tail;
    if head != [] {
      assert s[1..] == head[1..] + tail;
      PartitionAtColon(head[1..], tail);
      assert head == [head[0]] + head[1..];
    }
  }

  lemma TextIsPlain(code: Code)
    ensures ':' !in code.Text() && |code.Text()| > 0
    ensures !Blank(code.Text()[0]) && !Blank(code.Text()[|code.Text()| - 1])
  {
  }

  lemma TextIsInjective(a: Code, b: Code)
    requires a.Text() == b.Text()
    ensures a == b
  {
  }

  /** Whatever prose follows, an explanation that opens with a code parses back to it. */
  lemma CodeRoundTrips(code: Code, prose: string)
    requires prose != [] && prose[0] == ':'
    ensures BlockingCode(code.Text() + prose) == Some(code)
  {
    hide Strip, Partition, Code.Text;
    TextIsPlain(code);
    PlainIsKept(code.Text());
    PartitionAtColon(code.Text(), prose);
    EveryCodeIsChecked(code);
    var r := CodeNamed(CODES, code.Text());
    if r.Some? { TextIsInjective(r.value, code); }
  }

  lemma SatisfiedCarriesNoCode(prose: string)
    requires prose != [] && prose[0] == ':'
    ensures BlockingCode("satisfied" + prose) == None
  {
    hide Strip, Partition, Code.Text, CodeNamed;
    PartitionAtColon("satisfied", prose);
    SatisfiedIsPlain();
    PlainIsKept("satisfied");
    forall code: Code ensures code.Text() != "satisfied" { NoCodeIsSatisfied(code); }
  }

  lemma SatisfiedIsPlain()
    ensures ':' !in "satisfied" && !Blank('s') && !Blank('d')
  {
  }

  lemma NoCodeIsSatisfied(code: Code)
    ensures code.Text() != "satisfied"
  {
    if |code.Text()| == 9 { assert code.Text()[0] != 's'; }
  }
}
