/** Approval gates: when a demand is outstanding, what closes it, and what the ids keep apart. */
module Gates {
  import opened Orders
  import opened Strings

  type Time = int

  datatype Kind =
    | LowConfidenceRca | HighRiskRemoteAction | Dispatch | CleanToDirtyHandover | HighBlastRadiusAction | ExceptionalClosure
  {
    function Text(): string {
      match this
      case LowConfidenceRca => "low_confidence_rca"
      case HighRiskRemoteAction => "high_risk_remote_action"
      case Dispatch => "dispatch"
      case CleanToDirtyHandover => "clean_to_dirty_handover"
      case HighBlastRadiusAction => "high_blast_radius_action"
      case ExceptionalClosure => "exceptional_closure"
    }
  }

  // -- ids ---------------------------------------------------------------------------------------

  const SEP: char := '\U{001F}'

  function Decimal(n: nat): string {
    if n < 10 then ['0' + (n as char)] else Decimal(n / 10) + ['0' + ((n % 10) as char)]
  }

  function ValueOf(s: string): int {
    if s == "" then 0 else 10 * ValueOf(s[..|s| - 1]) + (s[|s| - 1] as int - '0' as int)
  }

  lemma {:induction false} DecimalReads(n: nat)
    ensures ValueOf(Decimal(n)) == n && SEP !in Decimal(n)
  {
    if n >= 10 {
      DecimalReads(n / 10);
      var s := Decimal(n);
      assert s[..|s| - 1] == Decimal(n / 10);
    } else {
      assert Decimal(n)[..0] == "";
    }
  }

  /** What follows the incident in an approval id. */
  function Fields(kind: Kind, attempt: nat, subject: string): string {
    kind.Text() + ([SEP] + (Decimal(attempt) + ([SEP] + subject)))
  }

  /** The material an approval id digests. The digest is modelled as injective, by the material itself. */
  function ApprovalIdFor(incident: string, kind: Kind, attempt: nat, subject: string): string {
    "APR-" + (incident + ([SEP] + Fields(kind, attempt, subject)))
  }

  predicate Plain(s: string) { SEP !in s && |s| > 0 && 'a' <= s[0] <= 'z' }

  lemma KindTextIsPlain(a: Kind)
    ensures Plain(a.Text())
  {
    LongTextsArePlain();
    ShortTextsArePlain();
    hide Plain;
  }

  lemma LongTextsArePlain()
    ensures Plain(HighRiskRemoteAction.Text()) && Plain(CleanToDirtyHandover.Text()) && Plain(HighBlastRadiusAction.Text())
  {
  }

  lemma ShortTextsArePlain()
    ensures Plain(LowConfidenceRca.Text()) && Plain(Dispatch.Text()) && Plain(ExceptionalClosure.Text())
  {
  }

  function KindLength(a: Kind): nat {
    match a
    case LowConfidenceRca => 18 case HighRiskRemoteAction => 23 case Dispatch => 8
    case CleanToDirtyHandover => 23 case HighBlastRadiusAction => 24 case ExceptionalClosure => 19
  }

  lemma KindHasLength(a: Kind)
    ensures |a.Text()| == KindLength(a)
  {
  }

  lemma KindTextIsInjective(a: Kind, b: Kind)
    requires a.Text() == b.Text()
    ensures a == b
  {
    KindHasLength(a);
    KindHasLength(b);
    assert CleanToDirtyHandover.Text()[0] != HighRiskRemoteAction.Text()[0];
    hide Kind.Text;
  }

  lemma {:induction false} DecimalStarts(n: nat)
    ensures |Decimal(n)| > 0 && '0' <= Decimal(n)[0] <= '9'
  {
    if n >= 10 { DecimalStarts(n / 10); }
  }

  lemma KindIsNoNumber(k: Kind, n: nat)
    ensures k.Text() != Decimal(n)
  {
    hide Kind.Text, Decimal;
    KindTextIsPlain(k);
    DecimalStarts(n);
  }

  lemma SameFields(k1: Kind, a1: nat, s1: string, k2: Kind, a2: nat, s2: string)
    requires Fields(k1, a1, s1) == Fields(k2, a2, s2)
    ensures k1 == k2 && a1 == a2 && s1 == s2
  {
    hide Kind.Text, Decimal, ValueOf;
    KindTextIsPlain(k1);
    KindTextIsPlain(k2);
    FieldsSplit(SEP, k1.Text(), Decimal(a1) + ([SEP] + s1), k2.Text(), Decimal(a2) + ([SEP] + s2));
    KindTextIsInjective(k1, k2);
    DecimalReads(a1);
    DecimalReads(a2);
    FieldsSplit(SEP, Decimal(a1), s1, Decimal(a2), s2);
  }

  // -- which incidents can share an id -----------------------------------------------------------

  predicate SpelledBy(i: string, j: string, k: Kind, n: nat, rest: string) {
    && i == j + ([SEP] + (k.Text() + ([SEP] + (Decimal(n) + rest))))
    && (rest == "" || rest[0] == SEP)
  }

  /** `i` goes on from `j` as `j`'s own ids do: a kind, a whole number, then nothing or another field. */
  ghost predicate Spells(i: string, j: string) { exists k, n, rest :: SpelledBy(i, j, k, n, rest) }

  datatype Asking = Asking(kind: Kind, attempt: nat, subject: string) {
    function IdIn(incident: string): string { ApprovalIdFor(incident, kind, attempt, subject) }
  }

  ghost predicate ShareAnId(i: string, j: string) { exists x: Asking, y: Asking :: x.IdIn(i) == y.IdIn(j) }

  lemma {:induction false} FirstField(s: string) returns (head: string, tail: string)
    requires SEP in s
    ensures s == head + ([SEP] + tail) && SEP !in head
  {
    if s[0] == SEP {
      head, tail := "", s[1..];
    } else {
      assert s == [s[0]] + s[1..];
      head, tail := FirstField(s[1..]);
      head := [s[0]] + head;
    }
  }

  /** What is left of a number and its separator once some fields are taken from the front. */
  lemma NumberTaken(t: string, more: string, n: nat, subject: string) returns (rest: string)
    requires t + ([SEP] + more) == Decimal(n) + ([SEP] + subject)
    ensures t == Decimal(n) + rest && (rest == "" || rest[0] == SEP)
  {
    hide Decimal, ValueOf;
    DecimalReads(n);
    if SEP in t {
      var number, tail := FirstField(t);
      assert t + ([SEP] + more) == number + ([SEP] + (tail + ([SEP] + more)));
      FieldsSplit(SEP, number, tail + ([SEP] + more), Decimal(n), subject);
      rest := [SEP] + tail;
    } else {
      FieldsSplit(SEP, t, more, Decimal(n), subject);
      rest := "";
    }
  }

  lemma FieldsTaken(t: string, k: Kind, a: nat, s: string, l: Kind, b: nat, u: string) returns (rest: string)
    requires t + ([SEP] + Fields(k, a, s)) == Fields(l, b, u)
    ensures t == l.Text() + ([SEP] + (Decimal(b) + rest)) && (rest == "" || rest[0] == SEP)
  {
    hide Kind.Text, Decimal;
    KindTextIsPlain(k);
    KindTextIsPlain(l);
    KindIsNoNumber(k, b);
    DecimalReads(b);
    var after := Decimal(b) + ([SEP] + u);
    if SEP in t {
      var kind, tail := FirstField(t);
      assert t + ([SEP] + Fields(k, a, s)) == kind + ([SEP] + (tail + ([SEP] + Fields(k, a, s))));
      FieldsSplit(SEP, kind, tail + ([SEP] + Fields(k, a, s)), l.Text(), after);
      rest := NumberTaken(tail, Fields(k, a, s), b, u);
    } else {
      rest := "";
      FieldsSplit(SEP, t, Fields(k, a, s), l.Text(), after);
      FieldsSplit(SEP, k.Text(), Decimal(a) + ([SEP] + s), Decimal(b), u);
    }
  }

  lemma LongerSpells(i: string, k: Kind, a: nat, s: string, j: string, l: Kind, b: nat, u: string)
    requires ApprovalIdFor(i, k, a, s) == ApprovalIdFor(j, l, b, u) && |i| > |j|
    ensures Spells(i, j)
  {
    hide Fields;
    var m := i + ([SEP] + Fields(k, a, s));
    assert m == ApprovalIdFor(i, k, a, s)[4..] == ApprovalIdFor(j, l, b, u)[4..] == j + ([SEP] + Fields(l, b, u));
    assert m[..|j|] == j == i[..|j|] && m[|j|] == SEP == i[|j|];
    var t := i[|j| + 1..];
    assert i == j + ([SEP] + t);
    assert t + ([SEP] + Fields(k, a, s)) == m[|j| + 1..] == Fields(l, b, u);
    var rest := FieldsTaken(t, k, a, s, l, b, u);
    assert SpelledBy(i, j, l, b, rest);
  }

  lemma SpelledSharesAnId(i: string, j: string, k: Kind, n: nat, rest: string)
    requires SpelledBy(i, j, k, n, rest)
    ensures ShareAnId(i, j) && ShareAnId(j, i)
  {
    hide Kind.Text, Decimal;
    var tail := rest + ([SEP] + Fields(Dispatch, 0, ""));
    assert tail == [SEP] + tail[1..];
    assert i + ([SEP] + Fields(Dispatch, 0, "")) == j + ([SEP] + (k.Text() + ([SEP] + (Decimal(n) + tail))));
    assert Asking(Dispatch, 0, "").IdIn(i) == Asking(k, n, tail[1..]).IdIn(j);
  }

  /** Two incidents can share an approval id exactly when one of them spells the other's fields. */
  lemma IncidentsShareAnIdIff(i: string, j: string)
    requires i != j
    ensures ShareAnId(i, j) <==> Spells(i, j) || Spells(j, i)
  {
    hide ApprovalIdFor, SpelledBy, Fields;
    if ShareAnId(i, j) { SharersSpell(i, j); }
    if k, n, rest :| SpelledBy(i, j, k, n, rest) { SpelledSharesAnId(i, j, k, n, rest); }
    if k, n, rest :| SpelledBy(j, i, k, n, rest) { SpelledSharesAnId(j, i, k, n, rest); }
  }

  lemma SharersSpell(i: string, j: string)
    requires i != j && ShareAnId(i, j)
    ensures Spells(i, j) || Spells(j, i)
  {
    hide ApprovalIdFor, Spells;
    var x: Asking, y: Asking :| x.IdIn(i) == y.IdIn(j);
    SharerSpells(i, x.kind, x.attempt, x.subject, j, y.kind, y.attempt, y.subject);
  }

  lemma SharerSpells(i: string, k: Kind, a: nat, s: string, j: string, l: Kind, b: nat, u: string)
    requires i != j && ApprovalIdFor(i, k, a, s) == ApprovalIdFor(j, l, b, u)
    ensures Spells(i, j) || Spells(j, i)
  {
    hide ApprovalIdFor, Spells, Fields;
    if |i| == |j| { SameLengthIncidents(i, k, a, s, j, l, b, u); }
    if |i| > |j| { LongerSpells(i, k, a, s, j, l, b, u); }
    if |i| < |j| { LongerSpells(j, l, b, u, i, k, a, s); }
  }

  lemma SameLengthIncidents(i: string, k: Kind, a: nat, s: string, j: string, l: Kind, b: nat, u: string)
    requires ApprovalIdFor(i, k, a, s) == ApprovalIdFor(j, l, b, u) && |i| == |j|
    ensures i == j && Fields(k, a, s) == Fields(l, b, u)
  {
    hide Fields;
    var m, n := i + ([SEP] + Fields(k, a, s)), j + ([SEP] + Fields(l, b, u));
    assert m == ApprovalIdFor(i, k, a, s)[4..] && n == ApprovalIdFor(j, l, b, u)[4..];
    assert i == m[..|i|] && j == n[..|j|];
    assert Fields(k, a, s) == m[|i| + 1..] && Fields(l, b, u) == n[|j| + 1..];
  }

  /** Two ids agree only for the same incident, kind, attempt and subject, as long as neither incident
      spells the other's fields. */
  lemma IdsAreInjective(i1: string, k1: Kind, a1: nat, s1: string, i2: string, k2: Kind, a2: nat, s2: string)
    requires ApprovalIdFor(i1, k1, a1, s1) == ApprovalIdFor(i2, k2, a2, s2)
    requires !Spells(i1, i2) && !Spells(i2, i1)
    ensures i1 == i2 && k1 == k2 && a1 == a2 && s1 == s2
  {
    hide ApprovalIdFor, Fields, Spells;
    if i1 != i2 { SharerSpells(i1, k1, a1, s1, i2, k2, a2, s2); }
    SameLengthIncidents(i1, k1, a1, s1, i2, k2, a2, s2);
    SameFields(k1, a1, s1, k2, a2, s2);
  }

  /** No incident spells itself, and none without the separator spells any: within one incident, and
      among separator-free incidents, ids are injective. */
  lemma PlainIncidentsSpellNothing(i: string, j: string)
    ensures Spells(i, j) ==> i != j && SEP in i
  {
    hide Decimal, Kind.Text;
    if k, n, rest :| SpelledBy(i, j, k, n, rest) {
      assert i[|j|] == SEP;
    }
  }

  /** A concrete pair: the first incident's dispatch approvals can be mistaken for the second's. */
  lemma SeparatorInIncidentCollides()
    ensures var i, j := "I" + ([SEP] + ("dispatch" + ([SEP] + "1"))), "I";
      i != j && Spells(i, j) && ShareAnId(i, j)
  {
    var i, j := "I" + ([SEP] + ("dispatch" + ([SEP] + "1"))), "I";
    assert Decimal(1) == "1" && Dispatch.Text() == "dispatch";
    assert "1" + "" == "1";
    assert SpelledBy(i, j, Dispatch, 1, "");
    SpelledSharesAnId(i, j, Dispatch, 1, "");
    assert |i| != |j|;
  }

  /** The subject `build_request` derives from the action and its target. */
  function Subject(action: Option<string>, target: Option<string>): string {
    if action.None? then "" else action.value + (":" + if target.Some? then target.value else "")
  }

  /** Two different actions, or one action on two targets, are two subjects. */
  lemma SubjectsKeepActionsApart(a: string, t: Option<string>, b: string, u: Option<string>)
    requires ':' !in a && ':' !in b && Subject(Some(a), t) == Subject(Some(b), u)
    ensures a == b && (if t.Some? then t.value else "") == (if u.Some? then u.value else "")
    ensures Subject(Some(a), t) != Subject(None, t)
  {
    FieldsSplit(':', a, if t.Some? then t.value else "", b, if u.Some? then u.value else "");
    assert |Subject(Some(a), t)| > 0;
  }

  // -- the gate ----------------------------------------------------------------------------------

  datatype Demand = Demand(id: string, kind: Kind, at: Time)
  datatype Answer = Answer(id: string, kind: Kind, granted: bool, at: Time)

  /** The two append-only channels a gate reads. */
  datatype Gate = Gate(demands: seq<Demand>, answers: seq<Answer>)

  function DemandTimes(g: Gate, kind: Kind): set<Time> { set d | d in g.demands && d.kind == kind :: d.at }
  function AnswerTimes(g: Gate, kind: Kind): set<Time> { set a | a in g.answers && a.kind == kind :: a.at }

  /** `max(answers) < max(demands)`, no demand counting as closed and no answer as open. */
  predicate Outstanding(g: Gate, kind: Kind) {
    exists d :: d in DemandTimes(g, kind) && forall a :: a in AnswerTimes(g, kind) ==> a < d
  }

  /** `latest_decision_of`: the first of the latest answers of a kind. */
  function LatestDecisionOf(g: Gate, kind: Kind): (r: Option<Answer>)
    ensures r.None? <==> forall a :: a in g.answers ==> a.kind != kind
    ensures r.Some? ==>
      && r.value in g.answers && r.value.kind == kind
      && forall a :: a in g.answers && a.kind == kind ==> a.at <= r.value.at
    ensures r.Some? ==> exists k ::
      && 0 <= k < |g.answers| && g.answers[k] == r.value
      && forall j :: 0 <= j < k && g.answers[j].kind == kind ==> g.answers[j].at < r.value.at
  {
    LatestIn(g.answers, kind)
  }

  function LatestIn(answers: seq<Answer>, kind: Kind): (r: Option<Answer>)
    ensures r.None? <==> forall a :: a in answers ==> a.kind != kind
    ensures r.Some? ==> r.value in answers && r.value.kind == kind
    ensures r.Some? ==> forall a :: a in answers && a.kind == kind ==> a.at <= r.value.at
    ensures r.Some? ==> exists k ::
      && 0 <= k < |answers| && answers[k] == r.value
      && forall j :: 0 <= j < k && answers[j].kind == kind ==> answers[j].at < r.value.at
  {
    if answers == [] then None
    else
      var n := |answers| - 1;
      assert answers == answers[..n] + [answers[n]];
      var r := LatestIn(answers[..n], kind);
      if answers[n].kind != kind then r
      else if r.None? || answers[n].at > r.value.at then Some(answers[n]) else r
  }

  function AppendDemand(g: Gate, d: Demand): Gate {
    if exists x :: x in g.demands && x.id == d.id then g else g.(demands := g.demands + [d])
  }

  function AppendAnswer(g: Gate, a: Answer): Gate {
    if exists x :: x in g.answers && x.id == a.id then g else g.(answers := g.answers + [a])
  }

  predicate FreshId(g: Gate, id: string) { forall x :: x in g.answers ==> x.id != id }

  /** Nothing recorded lies in the future. */
  ghost predicate Past(g: Gate, now: Time) {
    (forall d :: d in g.demands ==> d.at <= now) && (forall a :: a in g.answers ==> a.at <= now)
  }

  /** Answering an outstanding demand closes the gate exactly when the answer carries a new id; under
      an old id the reducer drops it and the demand stands. */
  lemma AnswerClosesIff(g: Gate, a: Answer)
    requires Past(g, a.at) && Outstanding(g, a.kind)
    ensures !Outstanding(AppendAnswer(g, a), a.kind) <==> FreshId(g, a.id)
    ensures !FreshId(g, a.id) ==> AppendAnswer(g, a) == g
  {
    var after := AppendAnswer(g, a);
    if FreshId(g, a.id) {
      assert a in after.answers;
      assert a.at in AnswerTimes(after, a.kind);
      forall d | d in DemandTimes(after, a.kind) ensures d <= a.at {
        var x :| x in g.demands && x.kind == a.kind && x.at == d;
      }
    }
  }

  /** A closed gate reopens exactly on a demand strictly later than every answer. */
  lemma DemandReopensIff(g: Gate, d: Demand)
    requires !Outstanding(g, d.kind) && forall x :: x in g.demands ==> x.id != d.id
    ensures Outstanding(AppendDemand(g, d), d.kind) <==> forall a :: a in AnswerTimes(g, d.kind) ==> a < d.at
  {
    var after := AppendDemand(g, d);
    assert after.demands == g.demands + [d];
    assert d in after.demands && d.at in DemandTimes(after, d.kind);
    assert AnswerTimes(after, d.kind) == AnswerTimes(g, d.kind);
    forall t | t in DemandTimes(after, d.kind) ensures t == d.at || t in DemandTimes(g, d.kind) {
      var x :| x in after.demands && x.kind == d.kind && x.at == t;
      assert x in g.demands || x == d;
    }
  }

  // -- histories ---------------------------------------------------------------------------------

  datatype Event =
    | Demanded(demand: Demand)
    | Asked(kind: Kind, attempt: nat, subject: string, granted: bool, at: Time)

  function TimeOf(e: Event): Time { if e.Demanded? then e.demand.at else e.at }

  function Apply(g: Gate, incident: string, e: Event): Gate {
    match e
    case Demanded(d) => AppendDemand(g, d)
    case Asked(kind, attempt, subject, granted, at) =>
      AppendAnswer(g, Answer(ApprovalIdFor(incident, kind, attempt, subject), kind, granted, at))
  }

  function GateAfter(incident: string, events: seq<Event>): Gate {
    if events == [] then Gate([], [])
    else Apply(GateAfter(incident, events[..|events| - 1]), incident, events[|events| - 1])
  }

  /** One clock that never runs backwards, one question per (kind, attempt, subject), and a gate that
      asks only while its demand is outstanding. */
  ghost predicate Disciplined(incident: string, events: seq<Event>) {
    && (forall i, j :: 0 <= i < j < |events| ==> TimeOf(events[i]) <= TimeOf(events[j]))
    && (forall i, j :: 0 <= i < j < |events| && events[i].Asked? && events[j].Asked? ==>
         (events[i].kind, events[i].attempt, events[i].subject) != (events[j].kind, events[j].attempt, events[j].subject))
    && (forall j :: 0 <= j < |events| && events[j].Asked? ==> Outstanding(GateAfter(incident, events[..j]), events[j].kind))
  }

  function Count(events: seq<Event>, kind: Kind, asks: bool): nat {
    if events == [] then 0
    else
      var e := events[|events| - 1];
      Count(events[..|events| - 1], kind, asks)
        + if (asks && e.Asked? && e.kind == kind) || (!asks && e.Demanded? && e.demand.kind == kind) then 1 else 0
  }

  lemma {:induction false} GateHoldsItsEvents(incident: string, events: seq<Event>)
    ensures forall d :: d in GateAfter(incident, events).demands ==> Demanded(d) in events
    ensures forall a :: a in GateAfter(incident, events).answers ==>
      exists e :: e in events && e.Asked? && a == Answer(ApprovalIdFor(incident, e.kind, e.attempt, e.subject), e.kind, e.granted, e.at)
  {
    hide ApprovalIdFor;
    if events != [] {
      var n := |events| - 1;
      assert events == events[..n] + [events[n]];
      GateHoldsItsEvents(incident, events[..n]);
    }
  }

  lemma DisciplinedPrefix(incident: string, events: seq<Event>, n: nat)
    requires Disciplined(incident, events) && n <= |events|
    ensures Disciplined(incident, events[..n])
  {
    hide Outstanding, GateAfter;
    forall j | 0 <= j < n ensures events[..n][..j] == events[..j] {}
  }

  lemma NextIsFreshAndLater(incident: string, events: seq<Event>)
    requires Disciplined(incident, events) && events != []
    ensures var n := |events| - 1;
      && Past(GateAfter(incident, events[..n]), TimeOf(events[n]))
      && (events[n].Asked? ==>
           FreshId(GateAfter(incident, events[..n]), ApprovalIdFor(incident, events[n].kind, events[n].attempt, events[n].subject)))
  {
    hide ApprovalIdFor, Outstanding, GateAfter;
    var n := |events| - 1;
    var g := GateAfter(incident, events[..n]);
    GateHoldsItsEvents(incident, events[..n]);
    forall e | e in events[..n] ensures TimeOf(e) <= TimeOf(events[n]) {
      var i :| 0 <= i < n && events[..n][i] == e;
      assert events[i] == e;
    }
    if events[n].Asked? {
      var last := events[n];
      forall a | a in g.answers ensures a.id != ApprovalIdFor(incident, last.kind, last.attempt, last.subject) {
        var e :| e in events[..n] && e.Asked? && a == Answer(ApprovalIdFor(incident, e.kind, e.attempt, e.subject), e.kind, e.granted, e.at);
        var i :| 0 <= i < n && events[..n][i] == e;
        assert events[i] == e;
        NewTripleNewId(incident, e, last);
      }
    }
  }

  lemma NewTripleNewId(incident: string, e: Event, f: Event)
    requires e.Asked? && f.Asked? && (e.kind, e.attempt, e.subject) != (f.kind, f.attempt, f.subject)
    ensures ApprovalIdFor(incident, e.kind, e.attempt, e.subject) != ApprovalIdFor(incident, f.kind, f.attempt, f.subject)
  {
    hide ApprovalIdFor;
    if ApprovalIdFor(incident, e.kind, e.attempt, e.subject) == ApprovalIdFor(incident, f.kind, f.attempt, f.subject) {
      PlainIncidentsSpellNothing(incident, incident);
      IdsAreInjective(incident, e.kind, e.attempt, e.subject, incident, f.kind, f.attempt, f.subject);
      assert false;
    }
  }

  lemma OtherKindStands(g: Gate, incident: string, e: Event, kind: Kind)
    requires if e.Demanded? then e.demand.kind != kind else e.kind != kind
    ensures Outstanding(Apply(g, incident, e), kind) <==> Outstanding(g, kind)
  {
    hide ApprovalIdFor;
    assert DemandTimes(Apply(g, incident, e), kind) == DemandTimes(g, kind);
    assert AnswerTimes(Apply(g, incident, e), kind) == AnswerTimes(g, kind);
  }

  /** Every ask closes its gate. */
  lemma EveryAskCloses(incident: string, events: seq<Event>)
    requires Disciplined(incident, events) && events != [] && events[|events| - 1].Asked?
    ensures !Outstanding(GateAfter(incident, events), events[|events| - 1].kind)
  {
    hide ApprovalIdFor, Outstanding, Past, FreshId;
    var n := |events| - 1;
    var e := events[n];
    NextIsFreshAndLater(incident, events);
    AnswerClosesIff(GateAfter(incident, events[..n]), Answer(ApprovalIdFor(incident, e.kind, e.attempt, e.subject), e.kind, e.granted, e.at));
  }

  /** The demands of a kind the channel holds. */
  function Held(demands: seq<Demand>, kind: Kind): nat {
    if demands == [] then 0
    else Held(demands[..|demands| - 1], kind) + if demands[|demands| - 1].kind == kind then 1 else 0
  }

  lemma HeldGrows(g: Gate, d: Demand, kind: Kind)
    ensures Held(AppendDemand(g, d).demands, kind) ==
      Held(g.demands, kind) + if AppendDemand(g, d) != g && d.kind == kind then 1 else 0
  {
    assert (g.demands + [d])[..|g.demands|] == g.demands;
  }

  /** Gates terminate: however a run interleaves them, a kind is never asked more often than the channel
      holds demands of it, replays dropped, and an open gate has a demand to spare. */
  lemma {:induction false} AsksNeverExceedDemands(incident: string, events: seq<Event>, kind: Kind)
    requires Disciplined(incident, events)
    ensures var g := GateAfter(incident, events);
      && Count(events, kind, true) + (if Outstanding(g, kind) then 1 else 0) <= Held(g.demands, kind)
      && Held(g.demands, kind) <= Count(events, kind, false)
  {
    hide ApprovalIdFor, Outstanding, AppendDemand, Held;
    if events == [] {
      NothingOutstanding(kind);
      assert Held([], kind) == 0 by { NothingHeld(kind); }
    } else {
      var n := |events| - 1;
      var e := events[n];
      DisciplinedPrefix(incident, events, n);
      AsksNeverExceedDemands(incident, events[..n], kind);
      if e.Demanded? { HeldGrows(GateAfter(incident, events[..n]), e.demand, kind); }
      if e.Asked? && e.kind == kind {
        EveryAskCloses(incident, events);
        assert Outstanding(GateAfter(incident, events[..n]), kind);
      } else if !(e.Demanded? && e.demand.kind == kind) {
        OtherKindStands(GateAfter(incident, events[..n]), incident, e, kind);
      }
    }
  }

  lemma NothingHeld(kind: Kind)
    ensures Held([], kind) == 0
  {
  }

  lemma NothingOutstanding(kind: Kind)
    ensures !Outstanding(Gate([], []), kind)
  {
  }

  // -- what an answer decides --------------------------------------------------------------------

  datatype ApprovalStatus = Pending | Approved | Rejected | Expired | Withdrawn

  /** The role a reply names: nothing, text, or some other JSON value, a number, list or object say. */
  datatype Role = Absent | Text(text: string) | Other(truthy: bool)

  /** What came back through the resume channel. The other fields are taken through `str` first. */
  datatype Reply = NotAMapping | Reply(decidedBy: string, role: Role, status: string, rationale: string)

  datatype Decision = Decision(status: ApprovalStatus, decidedBy: string, role: string, rationale: string)

  function StatusNamed(s: string): Option<ApprovalStatus> {
    if s == "pending" then Some(Pending)
    else if s == "approved" then Some(Approved)
    else if s == "rejected" then Some(Rejected)
    else if s == "expired" then Some(Expired)
    else if s == "withdrawn" then Some(Withdrawn)
    else None
  }

  function StatusText(status: ApprovalStatus): string {
    match status
    case Pending => "pending"
    case Approved => "approved"
    case Rejected => "rejected"
    case Expired => "expired"
    case Withdrawn => "withdrawn"
  }

  /** A word names a status exactly when it is that status's own. */
  lemma StatusNamedIff(s: string, status: ApprovalStatus)
    ensures StatusNamed(s) == Some(status) <==> s == StatusText(status)
  {
    assert |"pending"| == 7 && |"approved"| == 8 && |"rejected"| == 8 && |"expired"| == 7 && |"withdrawn"| == 9;
    assert "pending"[0] == 'p' && "approved"[0] == 'a' && "rejected"[0] == 'r' && "expired"[0] == 'e';
  }

  /** `Role.parse` on what was named: none inside for no role, none outside where it raises. */
  function ParseRole(role: Role): Option<Option<string>> {
    match role
    case Absent => Some(None)
    case Text(text) => Some(if text == "" then None else Some(Lower(Strip(text))))
    case Other(truthy) => if truthy then None else Some(None)
  }

  /** Whether a parsed role is on the kind's list. Fails closed. */
  predicate MayApprove(approvers: set<string>, role: Option<string>) { role.Some? && role.value in approvers }

  function RawText(role: Role): string { if role.Text? then role.text else "" }

  /** The decision's record trims its strings, and refuses a blank name or an unexplained rejection. */
  function Recorded(status: ApprovalStatus, who: string, role: string, rationale: string): Option<Decision> {
    if !Written(who) || (status == Rejected && !Written(rationale)) then None
    else Some(Decision(status, Trim(who), Trim(role), Trim(rationale)))
  }

  const MALFORMED := "malformed approval response"
  const NO_NAME := "no decided_by"
  const NO_ROLE := "role may not approve"
  const NO_STATUS := "unrecognised approval status"
  const NO_REASON := "rejected without a stated reason"

  /** A reply as a recorded decision, every malformed or unpermitted one as a rejection; none when
      reading it raises. */
  function DecisionFrom(approvers: set<string>, reply: Reply): Option<Decision> {
    if reply.NotAMapping? then Recorded(Rejected, "unknown", "", MALFORMED)
    else
      var who, status, parsed := Strip(reply.decidedBy), StatusNamed(Lower(Strip(reply.status))), ParseRole(reply.role);
      if parsed.None? then None
      else if who == "" then Recorded(Rejected, "unknown", RawText(reply.role), NO_NAME)
      else if !MayApprove(approvers, parsed.value) then Recorded(Rejected, who, RawText(reply.role), NO_ROLE)
      else if status.None? then Recorded(Rejected, who, parsed.value.value, NO_STATUS)
      else
        Recorded(status.value, who, parsed.value.value,
          if status.value == Rejected && reply.rationale == "" then NO_REASON else reply.rationale)
  }

  lemma FixedTextsAreWritten()
    ensures Written("unknown") && Written(MALFORMED) && Written(NO_NAME)
    ensures Written(NO_ROLE) && Written(NO_STATUS) && Written(NO_REASON)
  {
    assert !Space('u') && !Space('m') && !Space('n') && !Space('r');
    StartsWritten("unknown"); StartsWritten(MALFORMED); StartsWritten(NO_NAME);
    StartsWritten(NO_ROLE); StartsWritten(NO_STATUS); StartsWritten(NO_REASON);
  }

  lemma StartsWritten(s: string)
    ensures s != "" && !Space(s[0]) ==> Written(s)
  {
    hide Space, Written;
    WrittenIff(s);
  }

  /** A named person whose role is on the kind's list. */
  predicate Permitted(approvers: set<string>, reply: Reply) {
    && reply.Reply? && Strip(reply.decidedBy) != ""
    && reply.role.Text? && reply.role.text != "" && Lower(Strip(reply.role.text)) in approvers
  }

  /** Reading a reply raises exactly for two kinds of mapping: one whose role is neither text nor falsy,
      however the rest of it reads, and one in which a named, permitted person rejects and gives only
      white space for a reason. */
  lemma ReadingRaisesIff(approvers: set<string>, reply: Reply)
    ensures DecisionFrom(approvers, reply).None? <==>
      && reply.Reply?
      && (|| reply.role == Other(true)
          || (&& Permitted(approvers, reply) && Lower(Strip(reply.status)) == "rejected"
              && reply.rationale != "" && forall i :: 0 <= i < |reply.rationale| ==> Space(reply.rationale[i])))
  {
    hide Strip, Lower, Written, Space, StatusNamed;
    FixedTextsAreWritten();
    if reply.Reply? {
      StrippedIsWritten(reply.decidedBy);
      WrittenIff(reply.rationale);
      OnlyRejectedIsNamedSo(Lower(Strip(reply.status)));
    }
  }

  lemma OnlyRejectedIsNamedSo(s: string)
    ensures StatusNamed(s) == Some(Rejected) <==> s == "rejected"
  {
  }

  /** Anything but a rejection is recorded exactly when a named, permitted person said just that;
      everything else that can be read is a rejection with a reason and a name on it. */
  lemma DecidedOnlyOnPurpose(approvers: set<string>, reply: Reply, status: ApprovalStatus)
    requires DecisionFrom(approvers, reply).Some?
    ensures var d := DecisionFrom(approvers, reply).value;
      && d.decidedBy != "" && (d.status == Rejected ==> d.rationale != "")
      && (status != Rejected ==>
           (d.status == status <==> Permitted(approvers, reply) && StatusNamed(Lower(Strip(reply.status))) == Some(status)))
      && (d.status != Rejected ==> d.decidedBy == Trim(Strip(reply.decidedBy)) && d.rationale == Trim(reply.rationale))
  {
    hide Strip, Lower, StatusNamed, Trim;
  }

  /** A permitted person's own words are what is recorded: the name, the role and the reason as given, white
      space trimmed, and a reason supplied only where a rejection gave none. */
  lemma WordsAreKept(approvers: set<string>, reply: Reply)
    requires Permitted(approvers, reply) && DecisionFrom(approvers, reply).Some?
    requires exists status :: Lower(Strip(reply.status)) == StatusText(status)
    ensures var d := DecisionFrom(approvers, reply).value;
      && StatusText(d.status) == Lower(Strip(reply.status))
      && d.decidedBy == Trim(Strip(reply.decidedBy)) && d.role == Trim(Lower(Strip(reply.role.text)))
      && d.rationale == Trim(if reply.rationale == "" && d.status == Rejected then NO_REASON else reply.rationale)
  {
    hide Strip, Lower, Trim, StatusNamed, StatusText;
    var status :| Lower(Strip(reply.status)) == StatusText(status);
    StatusNamedIff(Lower(Strip(reply.status)), status);
  }

  /** An approval exists exactly when a named person in a permitted role said "approved". */
  lemma ApprovedOnlyOnPurpose(approvers: set<string>, reply: Reply)
    ensures DecisionFrom(approvers, reply).Some? && DecisionFrom(approvers, reply).value.status == Approved <==>
      Permitted(approvers, reply) && Lower(Strip(reply.status)) == "approved"
  {
    ReadingRaisesIff(approvers, reply);
    hide Strip, Lower, Written, Space, DecisionFrom;
    if DecisionFrom(approvers, reply).Some? { DecidedOnlyOnPurpose(approvers, reply, Approved); }
  }
}
