/** Decision chains: an answer may name another question, and the builder flattens each chain of
    questions into one edge. The static check that makes this safe, and the proof that it is. */
module Chains {
  import opened Orders

  type Name = string

  datatype Arm = Arm(answer: Name, target: Name)

  /** `BRANCH_TARGETS`: for each decision its answers and their targets, in dict order. */
  type Table = map<Name, seq<Arm>>

  ghost predicate Keyed(arms: seq<Arm>) {
    forall i, j :: 0 <= i < j < |arms| ==> arms[i].answer != arms[j].answer
  }

  /** Every row is a dict: no answer is listed twice in one row. */
  ghost predicate Dicts(t: Table) { forall d :: d in t ==> Keyed(t[d]) }

  function Answers(arms: seq<Arm>): set<Name> { set a | a in arms :: a.answer }

  function TargetOf(arms: seq<Arm>, answer: Name): (target: Name)
    requires answer in Answers(arms)
    ensures Arm(answer, target) in arms
  {
    if arms[0].answer == answer then arms[0].target
    else
      assert arms == [arms[0]] + arms[1..];
      TargetOf(arms[1..], answer)
  }

  /** The targets of a row that are questions themselves. */
  function Questions(arms: seq<Arm>, t: Table): (r: seq<Name>)
    ensures forall n :: n in r ==> n in t
    ensures forall n :: n in r <==> n in t && exists a :: a in arms && a.target == n
  {
    if arms == [] then []
    else
      assert arms == [arms[0]] + arms[1..];
      (if arms[0].target in t then [arms[0].target] else []) + Questions(arms[1..], t)
  }

  function Next(t: Table, d: Name): seq<Name>
    requires d in t
  {
    Questions(t[d], t)
  }

  /** A walk follows answers from question to question. */
  ghost predicate Walk(t: Table, w: seq<Name>) {
    && w != []
    && (forall i :: 0 <= i < |w| ==> w[i] in t)
    && (forall i :: 0 <= i < |w| - 1 ==> w[i + 1] in Next(t, w[i]))
  }

  ghost predicate WalkTo(t: Table, w: seq<Name>, from: Name, to: Name) {
    Walk(t, w) && w[0] == from && w[|w| - 1] == to
  }

  ghost predicate Reaches(t: Table, from: Name, to: Name) { exists w :: WalkTo(t, w, from, to) }

  lemma ReachesSelf(t: Table, d: Name)
    requires d in t
    ensures Reaches(t, d, d)
  {
    assert WalkTo(t, [d], d, d);
  }

  lemma WalkStep(t: Table, w: seq<Name>, next: Name)
    requires Walk(t, w) && next in Next(t, w[|w| - 1])
    ensures Walk(t, w + [next])
  {
    var r := w + [next];
    forall i | 0 <= i < |r| - 1 ensures r[i + 1] in Next(t, r[i]) {
      if i < |w| - 1 { assert w[i + 1] in Next(t, w[i]); }
    }
  }

  lemma ReachesStep(t: Table, from: Name, to: Name, next: Name)
    requires Reaches(t, from, to) && to in t && next in Next(t, to)
    ensures Reaches(t, from, next)
  {
    var w :| WalkTo(t, w, from, to);
    WalkStep(t, w, next);
    assert WalkTo(t, w + [next], from, next);
  }

  // -- chain_from --------------------------------------------------------------------------------

  ghost predicate ClosedUpTo(t: Table, order: seq<Name>, pending: seq<Name>) {
    forall d, n :: d in order && d in t && n in Next(t, d) ==> n in order || n in pending
  }

  lemma {:induction false} ClosedHoldsWalks(t: Table, order: seq<Name>, w: seq<Name>)
    requires ClosedUpTo(t, order, []) && Walk(t, w) && w[0] in order
    ensures forall i :: 0 <= i < |w| ==> w[i] in order
  {
    if |w| > 1 {
      assert w[1] in Next(t, w[0]);
      forall i | 0 <= i < |w[1..]| - 1 ensures w[1..][i + 1] in Next(t, w[1..][i]) {
        assert w[i + 2] in Next(t, w[i + 1]);
      }
      ClosedHoldsWalks(t, order, w[1..]);
      assert w == [w[0]] + w[1..];
    }
  }

  lemma ClosedSkip(t: Table, order: seq<Name>, pending: seq<Name>)
    requires pending != [] && ClosedUpTo(t, order, pending) && (pending[0] in order || pending[0] !in t)
    ensures ClosedUpTo(t, order, pending[1..])
  {
    assert pending == [pending[0]] + pending[1..];
  }

  lemma ClosedAdd(t: Table, order: seq<Name>, pending: seq<Name>)
    requires pending != [] && ClosedUpTo(t, order, pending) && pending[0] in t
    ensures ClosedUpTo(t, order + [pending[0]], pending[1..] + Next(t, pending[0]))
  {
    assert pending == [pending[0]] + pending[1..];
  }

  lemma ElementsGrow(t: Table, order: seq<Name>, d: Name)
    requires d in t && d !in order
    ensures t.Keys - Elements(order + [d]) < t.Keys - Elements(order)
  {
    ShrinksBy(t, d, order);
  }

  /** Breadth-first over the questions: exactly the reachable decisions, once each, the head first. */
  method ChainFrom(t: Table, head: Name) returns (order: seq<Name>)
    ensures Distinct(order)
    ensures forall d :: d in order <==> Reaches(t, head, d)
    ensures forall d :: d in order ==> d in t
    ensures head in t ==> order != [] && order[0] == head
  {
    hide ClosedUpTo, Reaches, Elements, Next;
    order := [];
    var pending := [head];
    if head in t { ReachesSelf(t, head); }
    NothingIsClosed(t, pending);
    while pending != []
      invariant Distinct(order)
      invariant forall d :: d in order ==> d in t && Reaches(t, head, d)
      invariant forall d :: d in pending && d in t ==> Reaches(t, head, d)
      invariant order == [] ==> pending == [head] || (pending == [] && head !in t)
      invariant order != [] ==> order[0] == head
      invariant ClosedUpTo(t, order, pending)
      decreases t.Keys - Elements(order), |pending|
    {
      var current := pending[0];
      assert pending == [current] + pending[1..];
      if current in order || current !in t {
        ClosedSkip(t, order, pending);
        pending := pending[1..];
        continue;
      }
      assert Reaches(t, head, current) && (pending == [head] ==> current == head);
      ClosedAdd(t, order, pending);
      ElementsGrow(t, order, current);
      var more := Next(t, current);
      forall n | n in more ensures Reaches(t, head, n) { ReachesStep(t, head, current, n); }
      pending := pending[1..] + more;
      order := order + [current];
    }
    forall d | Reaches(t, head, d) ensures d in order { ClosedHoldsReachable(t, order, head, d); }
  }

  lemma NothingIsClosed(t: Table, pending: seq<Name>)
    ensures ClosedUpTo(t, [], pending)
  {
  }

  lemma ClosedHoldsReachable(t: Table, order: seq<Name>, head: Name, d: Name)
    requires ClosedUpTo(t, order, []) && Reaches(t, head, d) && (head in t ==> head in order)
    ensures d in order
  {
    var w :| WalkTo(t, w, head, d);
    ClosedHoldsWalks(t, order, w);
  }

  function Elements(xs: seq<Name>): set<Name> { set x | x in xs }

  // -- the loop check ----------------------------------------------------------------------------

  /** No answer path from `d`, having walked `path`, comes back to a question already asked. */
  ghost predicate Clean(t: Table, d: Name, path: seq<Name>)
    requires d in t
    decreases t.Keys - Elements(path), 0, 0
  {
    d !in path && (ShrinksBy(t, d, path); CleanAll(t, Next(t, d), path + [d]))
  }

  ghost predicate CleanAll(t: Table, ds: seq<Name>, path: seq<Name>)
    requires forall i :: 0 <= i < |ds| ==> ds[i] in t
    decreases t.Keys - Elements(path), 1, |ds|
  {
    ds == [] || (Clean(t, ds[0], path) && CleanAll(t, ds[1..], path))
  }

  lemma ShrinksBy(t: Table, d: Name, path: seq<Name>)
    requires d in t && d !in path
    ensures t.Keys - Elements(path + [d]) < t.Keys - Elements(path)
  {
    assert d in t.Keys - Elements(path) && d !in t.Keys - Elements(path + [d]);
  }

  lemma {:induction false} CleanAllMeans(t: Table, ds: seq<Name>, path: seq<Name>)
    requires forall i :: 0 <= i < |ds| ==> ds[i] in t
    ensures CleanAll(t, ds, path) <==> forall i :: 0 <= i < |ds| ==> Clean(t, ds[i], path)
  {
    if ds != [] {
      CleanAllMeans(t, ds[1..], path);
      assert forall i :: 0 <= i < |ds[1..]| ==> ds[1..][i] == ds[i + 1];
      assert forall i :: 1 <= i < |ds| ==> ds[i] == ds[1..][i - 1];
    }
  }

  /** A walk from the head that asks some question twice. */
  ghost predicate LoopsFrom(t: Table, head: Name) {
    exists w :: Walk(t, w) && w[0] == head && w[|w| - 1] in w[..|w| - 1]
  }

  lemma {:induction false} CleanWalksAreFresh(t: Table, path: seq<Name>, w: seq<Name>)
    requires Walk(t, w) && Clean(t, w[0], path)
    ensures w[|w| - 1] !in w[..|w| - 1] && w[|w| - 1] !in path
    decreases |w|
  {
    if |w| > 1 {
      var rest := w[1..];
      forall i | 0 <= i < |rest| - 1 ensures rest[i + 1] in Next(t, rest[i]) { assert w[i + 2] in Next(t, w[i + 1]); }
      assert w[1] in Next(t, w[0]);
      CleanAllMeans(t, Next(t, w[0]), path + [w[0]]);
      CleanWalksAreFresh(t, path + [w[0]], rest);
      assert w[..|w| - 1] == [w[0]] + rest[..|rest| - 1];
    }
  }

  lemma {:induction false} UncleanLoops(t: Table, head: Name, d: Name, path: seq<Name>)
    requires d in t && Walk(t, path + [d]) && (path + [d])[0] == head && !Clean(t, d, path)
    ensures LoopsFrom(t, head)
    decreases t.Keys - Elements(path)
  {
    var w := path + [d];
    if d in path {
      assert w[..|w| - 1] == path;
    } else {
      ShrinksBy(t, d, path);
      CleanAllMeans(t, Next(t, d), w);
      var i :| 0 <= i < |Next(t, d)| && !Clean(t, Next(t, d)[i], w);
      WalkStep(t, w, Next(t, d)[i]);
      UncleanLoops(t, head, Next(t, d)[i], w);
    }
  }

  /** The depth-first check sees a loop exactly when the head can reach a cycle of questions. */
  lemma {:induction false} CleanIffNoLoop(t: Table, head: Name)
    requires head in t
    ensures Clean(t, head, []) <==> !LoopsFrom(t, head)
  {
    if Clean(t, head, []) {
      forall w | Walk(t, w) && w[0] == head ensures w[|w| - 1] !in w[..|w| - 1] { CleanWalksAreFresh(t, [], w); }
    } else {
      assert [] + [head] == [head];
      UncleanLoops(t, head, head, []);
    }
  }

  datatype Visit = Visit(current: Name, path: seq<Name>)

  /** How many visits the depth-first walk makes below one stack entry. */
  ghost function Tree(t: Table, d: Name, path: seq<Name>): (n: nat)
    requires d in t
    ensures n >= 1
    decreases t.Keys - Elements(path), 0, 0
  {
    if d in path then 1
    else
      ShrinksBy(t, d, path);
      1 + Forest(t, Next(t, d), path + [d])
  }

  ghost function Forest(t: Table, ds: seq<Name>, path: seq<Name>): nat
    requires forall i :: 0 <= i < |ds| ==> ds[i] in t
    decreases t.Keys - Elements(path), 1, |ds|
  {
    if ds == [] then 0 else Tree(t, ds[0], path) + Forest(t, ds[1..], path)
  }

  ghost predicate Known(t: Table, stack: seq<Visit>) { forall i :: 0 <= i < |stack| ==> stack[i].current in t }

  ghost function Work(t: Table, stack: seq<Visit>): nat
    requires Known(t, stack)
  {
    if stack == [] then 0
    else Work(t, stack[..|stack| - 1]) + Tree(t, stack[|stack| - 1].current, stack[|stack| - 1].path)
  }

  ghost predicate StackClean(t: Table, stack: seq<Visit>)
    requires Known(t, stack)
  {
    forall i :: 0 <= i < |stack| ==> Clean(t, stack[i].current, stack[i].path)
  }

  function Visits(ds: seq<Name>, path: seq<Name>): (r: seq<Visit>)
    ensures |r| == |ds| && forall i :: 0 <= i < |ds| ==> r[i] == Visit(ds[i], path)
  {
    seq(|ds|, i requires 0 <= i < |ds| => Visit(ds[i], path))
  }

  lemma {:induction false} ForestLast(t: Table, ds: seq<Name>, path: seq<Name>)
    requires (forall i :: 0 <= i < |ds| ==> ds[i] in t) && ds != []
    ensures Forest(t, ds, path) == Forest(t, ds[..|ds| - 1], path) + Tree(t, ds[|ds| - 1], path)
  {
    if |ds| > 1 {
      ForestLast(t, ds[1..], path);
      assert ds[1..][..|ds| - 2] == ds[..|ds| - 1][1..];
    }
  }

  lemma NoForest(t: Table, path: seq<Name>)
    ensures Forest(t, [], path) == 0
  {
  }

  lemma {:induction false} PushedWork(t: Table, stack: seq<Visit>, ds: seq<Name>, path: seq<Name>)
    requires Known(t, stack) && forall i :: 0 <= i < |ds| ==> ds[i] in t
    ensures Known(t, stack + Visits(ds, path))
    ensures Work(t, stack + Visits(ds, path)) == Work(t, stack) + Forest(t, ds, path)
  {
    hide Tree, Forest;
    if ds == [] {
      assert stack + Visits(ds, path) == stack;
      NoForest(t, path);
    } else {
      var n := |ds| - 1;
      var all := stack + Visits(ds, path);
      PushedWork(t, stack, ds[..n], path);
      ForestLast(t, ds, path);
      assert all[..|all| - 1] == stack + Visits(ds[..n], path);
    }
  }

  lemma PoppedClean(t: Table, stack: seq<Visit>, top: Visit)
    requires Known(t, stack) && top.current in t
    ensures Known(t, stack + [top])
    ensures StackClean(t, stack + [top]) <==> StackClean(t, stack) && Clean(t, top.current, top.path)
    ensures Work(t, stack + [top]) == Work(t, stack) + Tree(t, top.current, top.path)
  {
    var all := stack + [top];
    assert all[..|stack|] == stack && all[|stack|] == top;
    assert forall i :: 0 <= i < |stack| ==> all[i] == stack[i];
  }

  /** Explicit-stack depth-first search over answer paths below one head; terminates on cyclic tables. */
  method FindLoop(t: Table, head: Name) returns (loop: Option<seq<Name>>)
    requires head in t
    ensures loop.None? <==> !LoopsFrom(t, head)
  {
    hide Clean, CleanAll, Tree, Forest, Work, StackClean, LoopsFrom, Next;
    var stack := [Visit(head, [])];
    CleanIffNoLoop(t, head);
    assert [] + [Visit(head, [])] == stack;
    NothingStacked(t);
    PoppedClean(t, [], Visit(head, []));
    while stack != []
      invariant Known(t, stack)
      invariant Clean(t, head, []) <==> StackClean(t, stack)
      decreases Work(t, stack)
    {
      var top := stack[|stack| - 1];
      var rest := stack[..|stack| - 1];
      assert stack == rest + [top];
      PoppedClean(t, rest, top);
      OneVisit(t, rest, top);
      if top.current in top.path { return Some(top.path + [top.current]); }
      stack := rest + Visits(Next(t, top.current), top.path + [top.current]);
    }
    NothingStacked(t);
    loop := None;
  }

  lemma NothingStacked(t: Table)
    ensures StackClean(t, []) && Work(t, []) == 0
  {
  }

  lemma OneVisit(t: Table, rest: seq<Visit>, top: Visit)
    requires Known(t, rest) && top.current in t
    ensures top.current in top.path ==> !Clean(t, top.current, top.path)
    ensures top.current !in top.path ==>
      var pushed := rest + Visits(Next(t, top.current), top.path + [top.current]);
      && Known(t, pushed)
      && (StackClean(t, pushed) <==> StackClean(t, rest) && Clean(t, top.current, top.path))
      && Work(t, pushed) < Work(t, rest) + Tree(t, top.current, top.path)
  {
    hide Work, StackClean;
    if top.current !in top.path {
      var more, walked := Next(t, top.current), top.path + [top.current];
      ShrinksBy(t, top.current, top.path);
      CleanAllMeans(t, more, walked);
      PushedWork(t, rest, more, walked);
      PushedClean(t, rest, more, walked);
    }
  }

  /** Refuses exactly when some head can reach a cycle of questions. */
  method CheckChains(t: Table, heads: seq<Name>) returns (loop: Option<seq<Name>>)
    requires forall h :: h in heads ==> h in t
    ensures loop.None? <==> forall h :: h in heads ==> !LoopsFrom(t, h)
  {
    hide LoopsFrom;
    var i := 0;
    while i < |heads|
      invariant 0 <= i <= |heads|
      invariant forall j :: 0 <= j < i ==> !LoopsFrom(t, heads[j])
    {
      assert heads[i] in heads;
      loop := FindLoop(t, heads[i]);
      if loop.Some? { return; }
      i := i + 1;
    }
    loop := None;
  }

  lemma PushedClean(t: Table, stack: seq<Visit>, ds: seq<Name>, path: seq<Name>)
    requires Known(t, stack) && forall i :: 0 <= i < |ds| ==> ds[i] in t
    ensures Known(t, stack + Visits(ds, path))
    ensures StackClean(t, stack + Visits(ds, path)) <==>
      StackClean(t, stack) && forall i :: 0 <= i < |ds| ==> Clean(t, ds[i], path)
  {
    var all := stack + Visits(ds, path);
    assert forall i :: 0 <= i < |stack| ==> all[i] == stack[i];
    assert forall i :: 0 <= i < |ds| ==> all[|stack| + i] == Visit(ds[i], path);
  }

  // -- the composed router -----------------------------------------------------------------------

  /** Which decision settled the chain and what it answered. */
  datatype Settled = Settled(asked: Name, answer: Name)

  /** Every wired question's router gives one of its wired answers in this state. */
  ghost predicate AnswersDeclared(t: Table, ask: Name -> Name) {
    forall d :: d in t ==> ask(d) in Answers(t[d])
  }

  lemma AnswerLeads(t: Table, ask: Name -> Name, d: Name, path: seq<Name>)
    requires d in t && Clean(t, d, path) && AnswersDeclared(t, ask)
    ensures var target := TargetOf(t[d], ask(d));
      target in t ==> target in Next(t, d) && Clean(t, target, path + [d])
    ensures t.Keys - Elements(path + [d]) < t.Keys - Elements(path)
  {
    ShrinksBy(t, d, path);
    var target := TargetOf(t[d], ask(d));
    if target in t {
      assert Arm(ask(d), target) in t[d];
      CleanAllMeans(t, Next(t, d), path + [d]);
      assert target in Next(t, d);
    }
  }

  /** Asking one question at a time: ask, and while the target is a question ask that. */
  ghost function OneAtATime(t: Table, ask: Name -> Name, d: Name, path: seq<Name>): (s: Settled)
    requires d in t && Clean(t, d, path) && AnswersDeclared(t, ask)
    decreases t.Keys - Elements(path)
  {
    AnswerLeads(t, ask, d, path);
    var target := TargetOf(t[d], ask(d));
    if target in t then OneAtATime(t, ask, target, path + [d]) else Settled(d, ask(d))
  }

  /** The questions the answers lead through: each answer but the last names the next question, and the
      last names none. */
  ghost predicate Led(t: Table, ask: Name -> Name, w: seq<Name>)
    requires AnswersDeclared(t, ask)
  {
    && w != [] && (forall i :: 0 <= i < |w| ==> w[i] in t)
    && (forall i :: 0 <= i < |w| - 1 ==> TargetOf(t[w[i]], ask(w[i])) == w[i + 1])
    && TargetOf(t[w[|w| - 1]], ask(w[|w| - 1])) !in t
  }

  lemma LedOn(t: Table, ask: Name -> Name, d: Name, rest: seq<Name>)
    requires AnswersDeclared(t, ask) && Led(t, ask, rest) && d in t && TargetOf(t[d], ask(d)) == rest[0]
    ensures Led(t, ask, [d] + rest)
  {
    var w := [d] + rest;
    forall i | 0 <= i < |w| - 1 ensures TargetOf(t[w[i]], ask(w[i])) == w[i + 1] {
      if i > 0 { assert w[i] == rest[i - 1] && w[i + 1] == rest[i - 1 + 1]; }
    }
  }

  /** Asking one at a time follows the answers and settles on the last question's own. */
  lemma {:induction false} AnswersLead(t: Table, ask: Name -> Name, d: Name, path: seq<Name>) returns (w: seq<Name>)
    requires d in t && Clean(t, d, path) && AnswersDeclared(t, ask)
    ensures Led(t, ask, w) && w[0] == d
    ensures OneAtATime(t, ask, d, path) == Settled(w[|w| - 1], ask(w[|w| - 1]))
    decreases t.Keys - Elements(path)
  {
    AnswerLeads(t, ask, d, path);
    var target := TargetOf(t[d], ask(d));
    if target in t {
      var rest := AnswersLead(t, ask, target, path + [d]);
      LedOn(t, ask, d, rest);
      w := [d] + rest;
    } else {
      w := [d];
    }
  }

  /** Answers lead one way only. */
  lemma {:induction false} LedIsUnique(t: Table, ask: Name -> Name, v: seq<Name>, w: seq<Name>)
    requires AnswersDeclared(t, ask) && Led(t, ask, v) && Led(t, ask, w) && v[0] == w[0]
    ensures v == w
    decreases |v|
  {
    if |v| > 1 && |w| > 1 {
      assert v[1] == TargetOf(t[v[0]], ask(v[0])) == w[1] by { assert v[0 + 1] == w[0 + 1]; }
      LedRest(t, ask, v);
      LedRest(t, ask, w);
      LedIsUnique(t, ask, v[1..], w[1..]);
      assert v == [v[0]] + v[1..] && w == [w[0]] + w[1..];
    } else {
      LedFirst(t, ask, v);
      LedFirst(t, ask, w);
    }
  }

  lemma LedFirst(t: Table, ask: Name -> Name, w: seq<Name>)
    requires AnswersDeclared(t, ask) && Led(t, ask, w)
    ensures |w| == 1 <==> TargetOf(t[w[0]], ask(w[0])) !in t
  {
    if |w| > 1 { assert TargetOf(t[w[0]], ask(w[0])) == w[0 + 1]; }
  }

  lemma LedRest(t: Table, ask: Name -> Name, w: seq<Name>)
    requires AnswersDeclared(t, ask) && Led(t, ask, w) && |w| > 1
    ensures Led(t, ask, w[1..])
  {
    forall i | 0 <= i < |w[1..]| - 1 ensures TargetOf(t[w[1..][i]], ask(w[1..][i])) == w[1..][i + 1] {
      assert TargetOf(t[w[i + 1]], ask(w[i + 1])) == w[i + 1 + 1];
    }
  }

  /** The composed router: it answers as the last question the answers lead to. */
  method Cascade(t: Table, ask: Name -> Name, head: Name) returns (answer: Name)
    requires head in t && !LoopsFrom(t, head) && AnswersDeclared(t, ask)
    ensures Clean(t, head, []) && answer == OneAtATime(t, ask, head, []).answer
    ensures exists w :: Led(t, ask, w) && w[0] == head && answer == ask(w[|w| - 1])
  {
    CleanIffNoLoop(t, head);
    ghost var w := AnswersLead(t, ask, head, []);
    var current := head;
    ghost var path: seq<Name> := [];
    while true
      invariant current in t && Clean(t, current, path)
      invariant OneAtATime(t, ask, head, []) == OneAtATime(t, ask, current, path)
      decreases t.Keys - Elements(path)
    {
      answer := ask(current);
      var target := TargetOf(t[current], answer);
      AnswerLeads(t, ask, current, path);
      if target !in t { return; }
      path := path + [current];
      current := target;
    }
  }

  lemma {:induction false} SettlesInChain(t: Table, ask: Name -> Name, head: Name, d: Name, path: seq<Name>)
    requires d in t && Clean(t, d, path) && AnswersDeclared(t, ask) && Reaches(t, head, d)
    ensures var s := OneAtATime(t, ask, d, path);
      && s.asked in t && Reaches(t, head, s.asked) && s.answer == ask(s.asked)
      && s.answer in Answers(t[s.asked]) && TargetOf(t[s.asked], s.answer) !in t
    decreases t.Keys - Elements(path)
  {
    AnswerLeads(t, ask, d, path);
    var target := TargetOf(t[d], ask(d));
    if target in t {
      ReachesStep(t, head, d, target);
      SettlesInChain(t, ask, head, target, path + [d]);
    }
  }

  // -- the flattened path map --------------------------------------------------------------------

  /** An arm of a question in the chain that leaves it: its target is a node or the end. */
  ghost predicate Leaves(t: Table, head: Name, d: Name, arm: Arm) {
    d in t && Reaches(t, head, d) && arm in t[d] && arm.target !in t
  }

  /** Two questions of one chain leave it with the same answer. */
  ghost predicate Ambiguous(t: Table, head: Name) {
    exists d, e, a, b :: d != e && Leaves(t, head, d, a) && Leaves(t, head, e, b) && a.answer == b.answer
  }

  /** `out` is exactly the answers that leave the chain and where each goes. */
  ghost predicate IsPathMap(t: Table, head: Name, out: map<Name, Name>) {
    && (forall d, a :: Leaves(t, head, d, a) ==> a.answer in out && out[a.answer] == a.target)
    && (forall answer :: answer in out ==> exists d, a :: Leaves(t, head, d, a) && a.answer == answer)
  }

  datatype Seen = Seen(decision: Name, arm: Arm)

  /** The two dicts agree with the arms looked at so far. */
  ghost predicate Filled(t: Table, seen: set<Seen>, out: map<Name, Name>, origin: map<Name, Name>) {
    && out.Keys == origin.Keys
    && (forall s :: s in seen && s.arm.target !in t ==>
         s.arm.answer in out && out[s.arm.answer] == s.arm.target && origin[s.arm.answer] == s.decision)
    && (forall answer :: answer in out ==>
         Seen(origin[answer], Arm(answer, out[answer])) in seen && out[answer] !in t)
  }

  /** The path map of a chain, or a refusal when one answer would carry two questions. */
  method TerminalTargets(t: Table, head: Name) returns (out: Option<map<Name, Name>>)
    requires Dicts(t)
    ensures out.None? <==> Ambiguous(t, head)
    ensures out.Some? ==> IsPathMap(t, head, out.value)
  {
    var map_: map<Name, Name> := map[];
    var origin: map<Name, Name> := map[];
    var order := ChainFrom(t, head);
    ghost var seen: set<Seen> := {};
    var i := 0;
    while i < |order|
      invariant 0 <= i <= |order| && Filled(t, seen, map_, origin)
      invariant forall s :: s in seen ==> s.decision in order[..i] && s.arm in t[s.decision]
      invariant forall k, a :: 0 <= k < i && a in t[order[k]] ==> Seen(order[k], a) in seen
    {
      var current := order[i];
      assert current in order;
      var j := 0;
      while j < |t[current]|
        invariant 0 <= j <= |t[current]| && Filled(t, seen, map_, origin)
        invariant forall s :: s in seen ==>
          s.decision in t && s.arm in t[s.decision] && (s.decision in order[..i] || (s.decision == current && s.arm in t[current][..j]))
        invariant forall k, a :: 0 <= k < i && a in t[order[k]] ==> Seen(order[k], a) in seen
        invariant forall k :: 0 <= k < j ==> Seen(current, t[current][k]) in seen
      {
        var arm := t[current][j];
        assert t[current][..j + 1] == t[current][..j] + [arm];
        if arm.target !in t {
          if arm.answer in map_ {
            ClashIsAmbiguous(t, head, current, arm, origin[arm.answer], Arm(arm.answer, map_[arm.answer]), j);
            return None;
          }
          map_ := map_[arm.answer := arm.target];
          origin := origin[arm.answer := current];
        }
        seen := seen + {Seen(current, arm)};
        j := j + 1;
      }
      assert order[..i + 1] == order[..i] + [current];
      i := i + 1;
    }
    FilledIsPathMap(t, head, order, seen, map_, origin);
    out := Some(map_);
  }

  lemma ClashIsAmbiguous(t: Table, head: Name, d: Name, a: Arm, e: Name, b: Arm, j: nat)
    requires Dicts(t) && d in t && e in t && Reaches(t, head, d) && Reaches(t, head, e)
    requires j < |t[d]| && t[d][j] == a && a.target !in t && b in t[e] && b.target !in t && a.answer == b.answer
    requires e == d ==> b in t[d][..j]
    ensures Ambiguous(t, head)
  {
    assert forall k :: 0 <= k < j ==> t[d][..j][k].answer != a.answer;
    assert Leaves(t, head, d, a) && Leaves(t, head, e, b);
  }

  lemma FilledIsPathMap(t: Table, head: Name, order: seq<Name>, seen: set<Seen>, out: map<Name, Name>, origin: map<Name, Name>)
    requires forall d :: d in order <==> Reaches(t, head, d)
    requires forall d :: d in order ==> d in t
    requires Filled(t, seen, out, origin)
    requires forall s :: s in seen ==> s.decision in order && s.arm in t[s.decision]
    requires forall k, a :: 0 <= k < |order| && a in t[order[k]] ==> Seen(order[k], a) in seen
    ensures IsPathMap(t, head, out) && !Ambiguous(t, head)
  {
    forall d, a | Leaves(t, head, d, a) ensures Seen(d, a) in seen {
      assert d in order;
      var k :| 0 <= k < |order| && order[k] == d;
    }
    forall answer | answer in out ensures exists d, a :: Leaves(t, head, d, a) && a.answer == answer {
      assert Leaves(t, head, origin[answer], Arm(answer, out[answer]));
    }
  }

  /** Flattening preserves meaning: for a chain that neither loops nor answers ambiguously, whatever
      the routers say, the composed answer is a key of the path map and leads where asking the
      questions one at a time leads. */
  lemma FlatteningIsExact(t: Table, head: Name, ask: Name -> Name, out: map<Name, Name>)
    requires head in t && !LoopsFrom(t, head) && AnswersDeclared(t, ask) && IsPathMap(t, head, out)
    ensures Clean(t, head, [])
    ensures var s := OneAtATime(t, ask, head, []);
      && s.asked in t && Reaches(t, head, s.asked)
      && s.answer in Answers(t[s.asked]) && s.answer in out
      && out[s.answer] == TargetOf(t[s.asked], s.answer)
      && out[s.answer] !in t
    ensures exists w :: Led(t, ask, w) && w[0] == head
    ensures forall w :: Led(t, ask, w) && w[0] == head ==>
      var last := w[|w| - 1];
      OneAtATime(t, ask, head, []) == Settled(last, ask(last)) && ask(last) in out && out[ask(last)] == TargetOf(t[last], ask(last))
  {
    CleanIffNoLoop(t, head);
    ReachesSelf(t, head);
    SettlesInChain(t, ask, head, head, []);
    var s := OneAtATime(t, ask, head, []);
    assert Leaves(t, head, s.asked, Arm(s.answer, TargetOf(t[s.asked], s.answer)));
    var v := AnswersLead(t, ask, head, []);
    forall w | Led(t, ask, w) && w[0] == head ensures w == v { LedIsUnique(t, ask, w, v); }
  }

  // -- no key of the path map is dead ------------------------------------------------------------

  lemma KeyedTarget(arms: seq<Arm>, arm: Arm)
    requires Keyed(arms) && arm in arms
    ensures arm.answer in Answers(arms) && TargetOf(arms, arm.answer) == arm.target
  {
    var i :| 0 <= i < |arms| && arms[i] == arm;
    var j :| 0 <= j < |arms| && arms[j] == Arm(arm.answer, TargetOf(arms, arm.answer));
  }

  /** A question already on the path is not asked again, so how it would be answered is beside the point. */
  lemma {:induction false} OnlyTheUnaskedMatter(t: Table, ask: Name -> Name, other: Name -> Name, d: Name, path: seq<Name>)
    requires d in t && Clean(t, d, path) && AnswersDeclared(t, ask) && AnswersDeclared(t, other)
    requires forall n :: n in t && n !in path ==> ask(n) == other(n)
    ensures OneAtATime(t, ask, d, path) == OneAtATime(t, other, d, path)
    decreases t.Keys - Elements(path)
  {
    AnswerLeads(t, ask, d, path);
    var target := TargetOf(t[d], ask(d));
    if target in t { OnlyTheUnaskedMatter(t, ask, other, target, path + [d]); }
  }

  function Instead(ask: Name -> Name, d: Name, answer: Name): Name -> Name {
    n => if n == d then answer else ask(n)
  }

  /** Answering toward the next question of the walk, the rest of it is asked as before. */
  lemma AskedOnward(t: Table, path: seq<Name>, d: Name, next: Name, onward: Name -> Name) returns (ask: Name -> Name)
    requires Dicts(t) && d in t && Clean(t, d, path) && next in Next(t, d) && AnswersDeclared(t, onward)
    ensures next in t && Clean(t, next, path + [d]) && AnswersDeclared(t, ask)
    ensures OneAtATime(t, ask, d, path) == OneAtATime(t, onward, next, path + [d])
  {
    NextIsClean(t, d, path, next);
    var link :| link in t[d] && link.target == next;
    KeyedTarget(t[d], link);
    ask := Instead(onward, d, link.answer);
    AnswerLeads(t, ask, d, path);
    OnlyTheUnaskedMatter(t, ask, onward, next, path + [d]);
  }

  lemma LeavesAtOnce(t: Table, path: seq<Name>, d: Name, arm: Arm, any: Name -> Name) returns (ask: Name -> Name)
    requires Dicts(t) && d in t && Clean(t, d, path) && AnswersDeclared(t, any) && arm in t[d] && arm.target !in t
    ensures AnswersDeclared(t, ask) && OneAtATime(t, ask, d, path) == Settled(d, arm.answer)
  {
    KeyedTarget(t[d], arm);
    ask := Instead(any, d, arm.answer);
  }

  lemma WalkRest(t: Table, w: seq<Name>)
    requires Walk(t, w) && |w| > 1
    ensures Walk(t, w[1..]) && w[1] in Next(t, w[0])
  {
    hide Next;
    assert w[0 + 1] in Next(t, w[0]);
    forall i | 0 <= i < |w[1..]| - 1 ensures w[1..][i + 1] in Next(t, w[1..][i]) { assert w[i + 2] in Next(t, w[i + 1]); }
  }

  lemma NextIsClean(t: Table, d: Name, path: seq<Name>, next: Name)
    requires d in t && Clean(t, d, path) && next in Next(t, d)
    ensures next in t && Clean(t, next, path + [d])
  {
    CleanAllMeans(t, Next(t, d), path + [d]);
  }

  /** Some routers walk this walk and leave it by this arm. */
  lemma {:induction false} WalkCanBeAsked(t: Table, path: seq<Name>, w: seq<Name>, arm: Arm, any: Name -> Name)
    returns (ask: Name -> Name)
    requires Dicts(t) && Walk(t, w) && Clean(t, w[0], path) && AnswersDeclared(t, any)
    requires arm in t[w[|w| - 1]] && arm.target !in t
    ensures AnswersDeclared(t, ask) && OneAtATime(t, ask, w[0], path) == Settled(w[|w| - 1], arm.answer)
    decreases |w|
  {
    hide Clean, OneAtATime, Dicts, Next, AnswersDeclared;
    if |w| == 1 {
      ask := LeavesAtOnce(t, path, w[0], arm, any);
    } else {
      WalkRest(t, w);
      NextIsClean(t, w[0], path, w[1]);
      var onward := WalkCanBeAsked(t, path + [w[0]], w[1..], arm, any);
      ask := AskedOnward(t, path, w[0], w[1], onward);
    }
  }

  /** The path map is tight: every arm that leaves the chain is taken by some declared answers. */
  lemma {:induction false} EveryArmIsTaken(t: Table, head: Name, d: Name, arm: Arm, any: Name -> Name) returns (ask: Name -> Name)
    requires Dicts(t) && head in t && !LoopsFrom(t, head) && AnswersDeclared(t, any) && Leaves(t, head, d, arm)
    ensures AnswersDeclared(t, ask)
    ensures Clean(t, head, []) && OneAtATime(t, ask, head, []) == Settled(d, arm.answer)
  {
    CleanIffNoLoop(t, head);
    var w :| WalkTo(t, w, head, d);
    ask := WalkCanBeAsked(t, [], w, arm, any);
  }
}
