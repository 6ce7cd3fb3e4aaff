/** The placement queue: most urgent first, predecessors pulled ahead of their dependants, one level. */
module Queue {
  import opened Orders
  import opened Constraints

  /** The requirements by id, as `{r.requirement_id: r for r in ordered}` builds it. */
  function ById(ordered: seq<Requirement>): (m: map<Id, Requirement>)
    ensures forall id :: id in m <==> exists r :: r in ordered && r.id == id
    ensures forall id :: id in m ==> m[id] in ordered && m[id].id == id
  {
    if ordered == [] then map[]
    else
      var n := |ordered| - 1;
      assert ordered == ordered[..n] + [ordered[n]];
      ById(ordered[..n])[ordered[n].id := ordered[n]]
  }

  function Ids(rs: seq<Requirement>): (r: seq<Id>)
    ensures |r| == |rs| && forall i :: 0 <= i < |rs| ==> r[i] == rs[i].id
  {
    seq(|rs|, i requires 0 <= i < |rs| => rs[i].id)
  }

  type Deps = map<Id, seq<Id>>

  function DepsOf(deps: Deps, id: Id): seq<Id> { if id in deps then Sort(deps[id], IntLeq) else [] }

  /** Appends each id of `wanted` that is present and not yet placed. */
  function Pull(placed: seq<Id>, wanted: seq<Id>, present: set<Id>): seq<Id>
    decreases |wanted|
  {
    if wanted == [] then placed
    else Pull(if wanted[0] in present && wanted[0] !in placed then placed + [wanted[0]] else placed, wanted[1..], present)
  }

  /** One job's turn: its predecessors, then itself. */
  function Turn(placed: seq<Id>, id: Id, deps: Deps, present: set<Id>): seq<Id> {
    Pull(placed, DepsOf(deps, id) + [id], present)
  }

  function Place(ordered: seq<Id>, deps: Deps, present: set<Id>): seq<Id> {
    if ordered == [] then []
    else Turn(Place(ordered[..|ordered| - 1], deps, present), ordered[|ordered| - 1], deps, present)
  }

  lemma {:induction false} PullAppend(placed: seq<Id>, a: seq<Id>, b: seq<Id>, present: set<Id>)
    ensures Pull(placed, a + b, present) == Pull(Pull(placed, a, present), b, present)
    decreases |a|
  {
    if a == [] {
      assert a + b == b;
    } else {
      assert (a + b)[1..] == a[1..] + b;
      PullAppend(if a[0] in present && a[0] !in placed then placed + [a[0]] else placed, a[1..], b, present);
    }
  }

  lemma PullNothing(placed: seq<Id>, present: set<Id>)
    ensures Pull(placed, [], present) == placed
  {
  }

  lemma PullStep(placed: seq<Id>, wanted: seq<Id>, k: nat, present: set<Id>)
    requires k < |wanted|
    ensures Pull(placed, wanted[..k + 1], present) ==
      var r := Pull(placed, wanted[..k], present);
      if wanted[k] in present && wanted[k] !in r then r + [wanted[k]] else r
  {
    assert wanted[..k + 1] == wanted[..k] + [wanted[k]];
    PullAppend(placed, wanted[..k], [wanted[k]], present);
  }

  method BuildQueue(ordered: seq<Id>, deps: Deps) returns (placed: seq<Id>)
    ensures placed == Place(ordered, deps, Members(ordered))
  {
    hide Pull, DepsOf;
    var byId := Members(ordered);
    var seen: set<Id> := {};
    placed := [];
    var i := 0;
    while i < |ordered|
      invariant 0 <= i <= |ordered| && seen == Members(placed)
      invariant placed == Place(ordered[..i], deps, byId)
    {
      var requirement := ordered[i];
      var predecessors := DepsOf(deps, requirement);
      ghost var start, turn := placed, predecessors + [requirement];
      var j := 0;
      PullNothing(start, byId);
      assert turn[..0] == [];
      while j < |predecessors|
        invariant 0 <= j <= |predecessors| && seen == Members(placed)
        invariant placed == Pull(start, turn[..j], byId)
      {
        PullStep(start, turn, j, byId);
        if predecessors[j] in byId && predecessors[j] !in seen {
          placed := placed + [predecessors[j]];
          seen := seen + {predecessors[j]};
        }
        j := j + 1;
      }
      PullStep(start, turn, j, byId);
      assert turn[..j + 1] == turn && requirement in byId;
      if requirement !in seen {
        placed := placed + [requirement];
        seen := seen + {requirement};
      }
      assert ordered[..i + 1][..i] == ordered[..i];
      i := i + 1;
    }
    assert ordered[..i] == ordered;
  }

  // -- every job once ----------------------------------------------------------------------------

  lemma {:induction false} PullAdds(placed: seq<Id>, wanted: seq<Id>, present: set<Id>)
    requires Distinct(placed) && Members(placed) <= present
    ensures var r := Pull(placed, wanted, present);
      && placed <= r && Distinct(r) && Members(r) <= present
      && (forall id :: id in wanted && id in present ==> id in r)
      && (forall id :: id in r ==> id in placed || id in wanted)
    decreases |wanted|
  {
    if wanted != [] {
      var next := if wanted[0] in present && wanted[0] !in placed then placed + [wanted[0]] else placed;
      assert Members(next) <= present;
      PullAdds(next, wanted[1..], present);
      assert wanted == [wanted[0]] + wanted[1..];
      assert wanted[0] in present ==> wanted[0] in next;
    }
  }

  lemma {:induction false} PlaceAdds(ordered: seq<Id>, deps: Deps, present: set<Id>)
    requires Members(ordered) <= present
    ensures var r := Place(ordered, deps, present);
      && Distinct(r) && Members(r) <= present && forall id :: id in ordered ==> id in r
  {
    if ordered != [] {
      var n := |ordered| - 1;
      assert ordered == ordered[..n] + [ordered[n]];
      assert Members(ordered[..n]) <= present && ordered[n] in Members(ordered);
      PlaceAdds(ordered[..n], deps, present);
      PullAdds(Place(ordered[..n], deps, present), DepsOf(deps, ordered[n]) + [ordered[n]], present);
    }
  }

  /** The queue enumerates the distinct jobs exactly once each, whatever the dependencies. */
  lemma QueueIsAPermutation(ordered: seq<Id>, deps: Deps)
    requires Distinct(ordered)
    ensures multiset(Place(ordered, deps, Members(ordered))) == multiset(ordered)
  {
    var placed := Place(ordered, deps, Members(ordered));
    PlaceAdds(ordered, deps, Members(ordered));
    DistinctByCount(ordered);
    DistinctByCount(placed);
    forall id ensures multiset(placed)[id] == multiset(ordered)[id] {
      if id in ordered { assert id in placed; }
      if id in placed { assert id in Members(placed); }
    }
  }

  // -- in whose turn -----------------------------------------------------------------------------

  /** A job's turn places itself and the predecessors it names. */
  predicate Pulls(deps: Deps, top: Id, id: Id) { id == top || DependsOn(deps, top, id) }

  lemma {:induction false} PlacedInATurn(ordered: seq<Id>, deps: Deps, present: set<Id>, i: nat) returns (m: nat)
    requires Members(ordered) <= present && i < |Place(ordered, deps, present)|
    ensures m < |ordered| && Pulls(deps, ordered[m], Place(ordered, deps, present)[i])
  {
    hide Pull;
    var n := |ordered| - 1;
    var id := ordered[n];
    assert ordered == ordered[..n] + [id];
    assert Members(ordered[..n]) <= present && id in Members(ordered);
    PlaceAdds(ordered[..n], deps, present);
    var before := Place(ordered[..n], deps, present);
    PullAdds(before, DepsOf(deps, id) + [id], present);
    DepsAreSorted(deps, id);
    var r := Place(ordered, deps, present);
    m := n;
    if i < |before| {
      m := PlacedInATurn(ordered[..n], deps, present, i);
    } else {
      assert r[i] in r && r[i] !in before by { DistinctTail(before, r, i); }
    }
  }

  lemma DistinctTail(before: seq<Id>, r: seq<Id>, i: nat)
    requires before <= r && Distinct(r) && |before| <= i < |r|
    ensures r[i] !in before
  {
    forall k | 0 <= k < |before| ensures before[k] != r[i] { assert before[k] == r[k]; }
  }

  /** Of two queued jobs the earlier was pulled in the turn of some job before whose place in the order
      the later had not come. */
  lemma {:induction false} TurnsAreInOrder(ordered: seq<Id>, deps: Deps, present: set<Id>, i: nat, j: nat) returns (m: nat)
    requires Members(ordered) <= present && i < j < |Place(ordered, deps, present)|
    ensures m < |ordered| && Pulls(deps, ordered[m], Place(ordered, deps, present)[i])
    ensures Place(ordered, deps, present)[j] !in ordered[..m]
  {
    hide Pull;
    var n := |ordered| - 1;
    var id := ordered[n];
    assert ordered == ordered[..n] + [id];
    assert Members(ordered[..n]) <= present && id in Members(ordered);
    PlaceAdds(ordered[..n], deps, present);
    var before, r := Place(ordered[..n], deps, present), Place(ordered, deps, present);
    PullAdds(before, DepsOf(deps, id) + [id], present);
    if j < |before| {
      m := TurnsAreInOrder(ordered[..n], deps, present, i, j);
      assert ordered[..n][..m] == ordered[..m];
    } else {
      DistinctTail(before, r, j);
      m := PlacedInATurn(ordered, deps, present, i);
      assert forall x :: x in ordered[..m] ==> x in ordered[..n];
    }
  }

  // -- predecessors first ------------------------------------------------------------------------

  ghost predicate Ahead(placed: seq<Id>, a: Id, b: Id) {
    exists i, j :: 0 <= i < j < |placed| && placed[i] == a && placed[j] == b
  }

  predicate DependsOn(deps: Deps, job: Id, pred: Id) { job in deps && pred in deps[job] }

  /** Every present predecessor is queued ahead of every present job that depends on it. */
  ghost predicate PredecessorsFirst(placed: seq<Id>, deps: Deps, present: set<Id>) {
    forall job, pred :: job in present && pred in present && DependsOn(deps, job, pred) ==> Ahead(placed, pred, job)
  }

  /** How deep the one-level pull can see: nothing depends on itself, and a job that something else
      depends on has only predecessors the other job names too, with smaller ids. */
  ghost predicate Shallow(deps: Deps, present: set<Id>) {
    && (forall job :: job in present ==> !DependsOn(deps, job, job))
    && (forall top, job, pred ::
         top in present && job in present && pred in present && top != job
         && DependsOn(deps, top, job) && DependsOn(deps, job, pred) ==>
           pred < job && DependsOn(deps, top, pred))
  }

  /** What a partly built queue keeps: a placed job's predecessors are placed ahead of it. */
  ghost predicate Backed(placed: seq<Id>, deps: Deps, present: set<Id>) {
    forall j, pred :: 0 <= j < |placed| && pred in present && DependsOn(deps, placed[j], pred) ==> pred in placed[..j]
  }

  lemma DepsAreSorted(deps: Deps, id: Id)
    ensures forall x :: x in DepsOf(deps, id) <==> DependsOn(deps, id, x)
    ensures SortedBy(DepsOf(deps, id), IntLeq)
  {
    if id in deps {
      SortSorts(deps[id], IntLeq);
      SameMembers(deps[id], DepsOf(deps, id));
    }
  }

  /** Pulling the rest of `top`'s predecessors keeps a queue backed. */
  lemma {:induction false} PullStaysBacked(placed: seq<Id>, done: seq<Id>, wanted: seq<Id>, top: Id, deps: Deps, present: set<Id>)
    requires Shallow(deps, present) && top in present
    requires done + wanted == DepsOf(deps, top)
    requires forall x :: x in done && x in present ==> x in placed
    requires Backed(placed, deps, present)
    ensures Backed(Pull(placed, wanted, present), deps, present)
    decreases |wanted|
  {
    if wanted != [] {
      var w := wanted[0];
      var next := if w in present && w !in placed then placed + [w] else placed;
      DepsAreSorted(deps, top);
      assert DepsOf(deps, top)[|done|] == w;
      assert w in DepsOf(deps, top);
      if w in present && w !in placed {
        forall pred | pred in present && DependsOn(deps, w, pred) ensures pred in placed {
          assert pred < w && DependsOn(deps, top, pred);
          SmallerIsDone(DepsOf(deps, top), |done|, pred);
          assert DepsOf(deps, top)[..|done|] == done;
        }
        BackedAppend(placed, w, deps, present);
      }
      assert (done + [w]) + wanted[1..] == done + wanted;
      PullStaysBacked(next, done + [w], wanted[1..], top, deps, present);
    }
  }

  lemma SmallerIsDone(sorted: seq<Id>, k: nat, x: Id)
    requires SortedBy(sorted, IntLeq) && k < |sorted| && x in sorted && x < sorted[k]
    ensures x in sorted[..k]
  {
    var i :| 0 <= i < |sorted| && sorted[i] == x;
    assert i >= k ==> IntLeq(sorted[k], sorted[i]) || i == k;
    assert sorted[..k][i] == x;
  }

  lemma BackedAppend(placed: seq<Id>, w: Id, deps: Deps, present: set<Id>)
    requires Backed(placed, deps, present)
    requires forall pred :: pred in present && DependsOn(deps, w, pred) ==> pred in placed
    ensures Backed(placed + [w], deps, present)
  {
    var r := placed + [w];
    forall j, pred | 0 <= j < |r| && pred in present && DependsOn(deps, r[j], pred) ensures pred in r[..j] {
      if j < |placed| { assert r[..j] == placed[..j]; } else { assert r[..j] == placed; }
    }
  }

  lemma {:induction false} PlaceStaysBacked(ordered: seq<Id>, deps: Deps, present: set<Id>)
    requires Shallow(deps, present) && Members(ordered) <= present
    ensures Backed(Place(ordered, deps, present), deps, present)
  {
    if ordered != [] {
      var n := |ordered| - 1;
      var id := ordered[n];
      assert ordered == ordered[..n] + [id];
      assert Members(ordered[..n]) <= present && id in Members(ordered);
      PlaceStaysBacked(ordered[..n], deps, present);
      PlaceAdds(ordered[..n], deps, present);
      var before := Place(ordered[..n], deps, present);
      var pulled := Pull(before, DepsOf(deps, id), present);
      PullStaysBacked(before, [], DepsOf(deps, id), id, deps, present);
      PullAdds(before, DepsOf(deps, id), present);
      PullAppend(before, DepsOf(deps, id), [id], present);
      DepsAreSorted(deps, id);
      if id !in pulled { BackedAppend(pulled, id, deps, present); }
    }
  }

  lemma ShallowIsEnough(ordered: seq<Id>, deps: Deps)
    requires Shallow(deps, Members(ordered))
    ensures PredecessorsFirst(Place(ordered, deps, Members(ordered)), deps, Members(ordered))
  {
    var present := Members(ordered);
    var placed := Place(ordered, deps, present);
    PlaceStaysBacked(ordered, deps, present);
    PlaceAdds(ordered, deps, present);
    forall job, pred | job in present && pred in present && DependsOn(deps, job, pred)
      ensures Ahead(placed, pred, job)
    {
      assert job in placed;
      var j :| 0 <= j < |placed| && placed[j] == job;
      assert pred in placed[..j];
      var i :| 0 <= i < j && placed[..j][i] == pred;
      assert placed[i] == pred;
    }
  }

  // -- and only then -----------------------------------------------------------------------------

  lemma {:induction false} PlaceGrows(first: Id, rest: seq<Id>, deps: Deps, present: set<Id>)
    requires Members([first] + rest) <= present
    ensures Place([first], deps, present) <= Place([first] + rest, deps, present)
  {
    var ordered := [first] + rest;
    if rest != [] {
      var n := |ordered| - 1;
      assert ordered[..n] == [first] + rest[..n - 1] && ordered == ordered[..n] + [ordered[n]];
      assert Members(ordered[..n]) <= present && ordered[n] in Members(ordered);
      PlaceGrows(first, rest[..n - 1], deps, present);
      PlaceAdds(ordered[..n], deps, present);
      PullAdds(Place(ordered[..n], deps, present), DepsOf(deps, ordered[n]) + [ordered[n]], present);
    }
  }

  /** From an empty queue, ascending ids are pulled in ascending order. */
  lemma {:induction false} PullAscending(placed: seq<Id>, wanted: seq<Id>, present: set<Id>)
    requires SortedBy(wanted, IntLeq)
    requires forall i, j :: 0 <= i < j < |placed| ==> placed[i] < placed[j]
    requires forall x, w :: x in placed && w in wanted ==> x <= w
    ensures forall i, j :: 0 <= i < j < |Pull(placed, wanted, present)| ==> Pull(placed, wanted, present)[i] < Pull(placed, wanted, present)[j]
    decreases |wanted|
  {
    if wanted != [] {
      var w := wanted[0];
      var next := if w in present && w !in placed then placed + [w] else placed;
      assert wanted == [w] + wanted[1..];
      forall i, j | 0 <= i < j < |next| ensures next[i] < next[j] {
        if j == |placed| { assert placed[i] in placed && w in wanted; }
      }
      forall x, v | x in next && v in wanted[1..] ensures x <= v {
        assert v in wanted;
        assert IntLeq(w, v);
      }
      PullAscending(next, wanted[1..], present);
    }
  }

  /** With `top` considered first, `job` is pulled with none of the predecessors the pull cannot see. */
  lemma TopFirstPulls(top: Id, job: Id, pred: Id, deps: Deps, present: set<Id>) returns (j: nat)
    requires top in present && job in present && top != job && DependsOn(deps, top, job)
    requires !(pred < job && DependsOn(deps, top, pred))
    ensures j < |Place([top], deps, present)| && Place([top], deps, present)[j] == job
    ensures pred !in Place([top], deps, present)[..j]
  {
    var wanted := DepsOf(deps, top);
    var pulled := Pull([], wanted, present);
    DepsAreSorted(deps, top);
    PullAscending([], wanted, present);
    PullAdds([], wanted, present);
    PullAppend([], wanted, [top], present);
    PullAdds(pulled, [top], present);
    assert Place([top], deps, present) == Pull(pulled, [top], present);
    assert job in pulled;
    j :| 0 <= j < |pulled| && pulled[j] == job;
    assert Place([top], deps, present)[..j] == pulled[..j];
    forall i | 0 <= i < j ensures pulled[i] != pred {
      assert pulled[i] in pulled && pulled[i] < pulled[j];
    }
  }

  lemma MoveToFront(ordered: seq<Id>, top: Id) returns (rest: seq<Id>)
    requires top in ordered
    ensures multiset([top] + rest) == multiset(ordered) && Members([top] + rest) == Members(ordered)
  {
    var k :| 0 <= k < |ordered| && ordered[k] == top;
    rest := ordered[..k] + ordered[k + 1..];
    assert ordered == ordered[..k] + [top] + ordered[k + 1..];
    SameMembers([top] + rest, ordered);
  }

  lemma TopFirstFails(top: Id, rest: seq<Id>, job: Id, pred: Id, deps: Deps, present: set<Id>)
    requires Members([top] + rest) <= present
    requires top in present && job in present && pred in present && top != job
    requires DependsOn(deps, top, job) && DependsOn(deps, job, pred) && !(pred < job && DependsOn(deps, top, pred))
    ensures !PredecessorsFirst(Place([top] + rest, deps, present), deps, present)
  {
    hide Place;
    var j := TopFirstPulls(top, job, pred, deps, present);
    PlaceGrows(top, rest, deps, present);
    PlaceAdds([top] + rest, deps, present);
    NotAhead(Place([top] + rest, deps, present), |Place([top], deps, present)|, j, pred, job);
  }

  lemma DeepOrderFails(ordered: seq<Id>, deps: Deps) returns (bad: seq<Id>)
    requires Distinct(ordered) && !Shallow(deps, Members(ordered))
    ensures multiset(bad) == multiset(ordered)
    ensures !PredecessorsFirst(Place(bad, deps, Members(ordered)), deps, Members(ordered))
  {
    hide Place, DependsOn;
    var present := Members(ordered);
    if job :| job in present && DependsOn(deps, job, job) {
      bad := ordered;
      PlaceAdds(bad, deps, present);
      assert !Ahead(Place(bad, deps, present), job, job);
    } else {
      var top, job, pred :| top in present && job in present && pred in present && top != job
        && DependsOn(deps, top, job) && DependsOn(deps, job, pred) && !(pred < job && DependsOn(deps, top, pred));
      var rest := MoveToFront(ordered, top);
      bad := [top] + rest;
      TopFirstFails(top, rest, job, pred, deps, present);
    }
  }

  lemma NotAhead(placed: seq<Id>, n: nat, j: nat, pred: Id, job: Id)
    requires Distinct(placed) && j < n <= |placed| && placed[j] == job && pred !in placed[..n][..j]
    ensures !Ahead(placed, pred, job)
  {
    forall i | 0 <= i < j ensures placed[i] != pred {
      assert placed[..n][..j][i] == placed[i];
    }
  }

  /** One pass puts every present predecessor ahead of its dependants, in whatever order urgency
      offers the jobs, exactly when the dependencies are shallow. */
  lemma OnePassIsEnoughIff(ordered: seq<Id>, deps: Deps)
    requires Distinct(ordered)
    ensures Shallow(deps, Members(ordered)) <==>
      forall o :: multiset(o) == multiset(ordered) ==> PredecessorsFirst(Place(o, deps, Members(ordered)), deps, Members(ordered))
  {
    hide Place, PredecessorsFirst, Shallow;
    var present := Members(ordered);
    if Shallow(deps, present) {
      forall o | multiset(o) == multiset(ordered) ensures PredecessorsFirst(Place(o, deps, present), deps, present) {
        SameMembers(o, ordered);
        assert Members(o) == present;
        ShallowIsEnough(o, deps);
      }
    } else {
      var bad := DeepOrderFails(ordered, deps);
    }
  }
}
