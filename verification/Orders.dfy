/** Sorting as Python's `sorted` does it, and why a total key makes the result independent of the
    order of the input. */
module Orders {

  datatype Option<+T> = None | Some(value: T)

  function Max(a: int, b: int): int { if a < b then b else a }
  function Min(a: int, b: int): int { if a < b then a else b }

  /** A total preorder: any two values compare, and comparison composes. */
  ghost predicate Preorder<T(!new)>(leq: (T, T) -> bool) {
    && (forall a, b :: leq(a, b) || leq(b, a))
    && (forall a, b, c :: leq(a, b) && leq(b, c) ==> leq(a, c))
  }

  ghost predicate SortedBy<T>(xs: seq<T>, leq: (T, T) -> bool) {
    forall i, j :: 0 <= i < j < |xs| ==> leq(xs[i], xs[j])
  }

  /** No two distinct members tie, which is what an identifier at the end of the key gives. */
  ghost predicate TieFree<T>(xs: seq<T>, leq: (T, T) -> bool) {
    forall a, b :: a in xs && b in xs && leq(a, b) && leq(b, a) ==> a == b
  }

  ghost predicate Distinct<T>(xs: seq<T>) {
    forall i, j :: 0 <= i < j < |xs| ==> xs[i] != xs[j]
  }

  function Insert<T>(x: T, xs: seq<T>, leq: (T, T) -> bool): (r: seq<T>)
    ensures multiset(r) == multiset(xs) + multiset{x}
  {
    if xs == [] || leq(x, xs[0]) then [x] + xs
    else
      assert xs == [xs[0]] + xs[1..];
      [xs[0]] + Insert(x, xs[1..], leq)
  }

  /** A stable sort: equal keys keep their input order. */
  function Sort<T>(xs: seq<T>, leq: (T, T) -> bool): (r: seq<T>)
    ensures multiset(r) == multiset(xs)
  {
    if xs == [] then []
    else
      assert xs == [xs[0]] + xs[1..];
      Insert(xs[0], Sort(xs[1..], leq), leq)
  }

  lemma SameMembers<T>(xs: seq<T>, ys: seq<T>)
    requires multiset(xs) == multiset(ys)
    ensures |xs| == |ys|
    ensures forall x :: x in xs <==> x in ys
  {
    assert |multiset(xs)| == |multiset(ys)|;
    forall x ensures x in xs <==> x in ys {
      assert x in xs <==> x in multiset(xs);
      assert x in ys <==> x in multiset(ys);
    }
  }

  lemma {:induction false} InsertSorts<T(!new)>(x: T, xs: seq<T>, leq: (T, T) -> bool)
    requires Preorder(leq) && SortedBy(xs, leq)
    ensures SortedBy(Insert(x, xs, leq), leq)
  {
    if xs == [] || leq(x, xs[0]) {
    } else {
      InsertSorts(x, xs[1..], leq);
      var r := Insert(x, xs[1..], leq);
      forall y | y in r ensures leq(xs[0], y) {
        assert y in multiset(r);
        assert y == x || y in xs[1..];
      }
    }
  }

  lemma {:induction false} SortSorts<T(!new)>(xs: seq<T>, leq: (T, T) -> bool)
    requires Preorder(leq)
    ensures SortedBy(Sort(xs, leq), leq)
  {
    if xs != [] {
      SortSorts(xs[1..], leq);
      InsertSorts(xs[0], Sort(xs[1..], leq), leq);
    }
  }

  lemma HeadsAgree<T(!new)>(xs: seq<T>, ys: seq<T>, leq: (T, T) -> bool)
    requires xs != [] && ys != [] && (forall x :: x in xs <==> x in ys)
    requires Preorder(leq) && SortedBy(xs, leq) && SortedBy(ys, leq) && TieFree(xs, leq)
    ensures xs[0] == ys[0]
  {
    assert xs[0] in ys && ys[0] in xs;
    var i :| 0 <= i < |ys| && ys[i] == xs[0];
    var j :| 0 <= j < |xs| && xs[j] == ys[0];
    assert leq(ys[0], ys[i]) && leq(xs[0], xs[j]);
  }

  /** Two sorted arrangements of the same tie-free members are the same sequence. */
  lemma {:induction false} SortedIsUnique<T(!new)>(xs: seq<T>, ys: seq<T>, leq: (T, T) -> bool)
    requires multiset(xs) == multiset(ys)
    requires Preorder(leq) && SortedBy(xs, leq) && SortedBy(ys, leq) && TieFree(xs, leq)
    ensures xs == ys
  {
    SameMembers(xs, ys);
    if xs != [] {
      HeadsAgree(xs, ys, leq);
      TailsAgree(xs, ys);
      SortedIsUnique(xs[1..], ys[1..], leq);
      assert xs == [xs[0]] + xs[1..] && ys == [ys[0]] + ys[1..];
    }
  }

  lemma TailsAgree<T>(xs: seq<T>, ys: seq<T>)
    requires multiset(xs) == multiset(ys)
    requires xs != [] && ys != [] && xs[0] == ys[0]
    ensures multiset(xs[1..]) == multiset(ys[1..])
    ensures forall x :: x in xs[1..] ==> x in xs
  {
    assert xs == [xs[0]] + xs[1..] && ys == [ys[0]] + ys[1..];
    assert multiset(xs[1..]) == multiset(xs) - multiset{xs[0]};
    assert multiset(ys[1..]) == multiset(ys) - multiset{ys[0]};
  }

  lemma RestAlike<T>(xs: seq<T>, ys: seq<T>) returns (k: nat)
    requires multiset(xs) == multiset(ys) && xs != []
    ensures k < |ys| && ys[k] == xs[0] && multiset(xs[1..]) == multiset(ys[..k] + ys[k + 1..])
  {
    SameMembers(xs, ys);
    assert xs[0] in ys;
    k :| 0 <= k < |ys| && ys[k] == xs[0];
    assert xs == [xs[0]] + xs[1..] && ys == ys[..k] + [ys[k]] + ys[k + 1..];
    assert multiset(xs[1..]) == multiset(xs) - multiset{xs[0]};
    assert multiset(ys[..k] + ys[k + 1..]) == multiset(ys) - multiset{xs[0]};
  }

  /** Sorting forgets the order of its input whenever the key has no ties. */
  lemma SortForgetsOrder<T(!new)>(xs: seq<T>, ys: seq<T>, leq: (T, T) -> bool)
    requires Preorder(leq) && multiset(xs) == multiset(ys) && TieFree(xs, leq)
    ensures Sort(xs, leq) == Sort(ys, leq)
  {
    SortSorts(xs, leq);
    SortSorts(ys, leq);
    SameMembers(xs, Sort(xs, leq));
    SortedIsUnique(Sort(xs, leq), Sort(ys, leq), leq);
  }

  lemma NoMembers<T>(xs: seq<T>)
    ensures xs == [] <==> forall x :: x !in xs
  {
    assert xs != [] ==> xs[0] in xs;
  }

  predicate IntLeq(a: int, b: int) { a <= b }

  /** `sorted` over a Python set of identifiers or instants. */
  function SortedSet(s: set<int>): (r: seq<int>)
    ensures forall x :: x in r <==> x in s
    ensures forall i, j :: 0 <= i < j < |r| ==> r[i] < r[j]
  {
    if s == {} then []
    else
      LeastExists(s);
      var m :| m in s && forall x :: x in s ==> m <= x;
      [m] + SortedSet(s - {m})
  }

  lemma {:induction false} LeastExists(s: set<int>)
    requires s != {}
    ensures exists m :: m in s && forall x :: x in s ==> m <= x
  {
    assert (forall a :: a !in s) ==> s == {};
    var a: int :| a in s;
    var rest := s - {a};
    assert s == rest + {a};
    if rest == {} {
      assert forall x :: x in s ==> a <= x;
    } else {
      LeastExists(rest);
      var b :| b in rest && forall x :: x in rest ==> b <= x;
      var m := if a < b then a else b;
      assert m in s && forall x :: x in s ==> m <= x;
    }
  }

  /** Distinct sequences with the same multiset as their set. */
  lemma {:induction false} DistinctAppend<T>(xs: seq<T>, x: T)
    requires Distinct(xs) && x !in xs
    ensures Distinct(xs + [x])
  {
  }

  lemma DistinctByCount<T>(xs: seq<T>)
    ensures Distinct(xs) <==> forall x :: x in multiset(xs) ==> multiset(xs)[x] == 1
  {
    if Distinct(xs) {
      forall x | x in multiset(xs) ensures multiset(xs)[x] == 1 {
        var i :| 0 <= i < |xs| && xs[i] == x;
        assert xs == xs[..i] + [x] + xs[i+1..];
        assert x !in xs[..i] && x !in xs[i+1..];
        assert multiset(xs) == multiset(xs[..i]) + multiset{x} + multiset(xs[i+1..]);
      }
    }
    if forall x :: x in multiset(xs) ==> multiset(xs)[x] == 1 {
      forall j | 0 <= j < |xs| ensures xs[j] !in xs[..j] {
        assert xs == xs[..j] + [xs[j]] + xs[j+1..];
        assert multiset(xs) == multiset(xs[..j]) + multiset{xs[j]} + multiset(xs[j+1..]);
        assert xs[j] in multiset(xs);
        assert multiset(xs[..j])[xs[j]] == 0;
      }
    }
  }
}
