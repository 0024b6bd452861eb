/** Sorting a finite set under a strict total order. Go sorts slices whose
    elements it collected from a map, so the only thing the result can depend on
    is the set; `Sorted` is that result and `SortedUnique` says there is no other. */
module Sorting {
  import opened Basics

  ghost predicate Irreflexive<T(!new)>(less: (T, T) -> bool, s: set<T>) {
    forall x | x in s :: !less(x, x)
  }

  ghost predicate Transitive<T(!new)>(less: (T, T) -> bool, s: set<T>) {
    forall x, y, z | x in s && y in s && z in s :: less(x, y) && less(y, z) ==> less(x, z)
  }

  ghost predicate Total<T(!new)>(less: (T, T) -> bool, s: set<T>) {
    forall x, y | x in s && y in s :: less(x, y) || x == y || less(y, x)
  }

  ghost predicate StrictTotalOn<T(!new)>(less: (T, T) -> bool, s: set<T>) {
    Irreflexive(less, s) && Transitive(less, s) && Total(less, s)
  }

  ghost predicate BelowAll<T>(less: (T, T) -> bool, x: T, q: seq<T>) {
    forall y | y in q :: less(x, y)
  }

  ghost predicate Ascending<T>(less: (T, T) -> bool, q: seq<T>) {
    q == [] || (BelowAll(less, q[0], q[1..]) && Ascending(less, q[1..]))
  }

  ghost predicate Holds<T(!new)>(q: seq<T>, s: set<T>) {
    forall x :: x in q <==> x in s
  }

  ghost predicate IsSorted<T(!new)>(less: (T, T) -> bool, q: seq<T>, s: set<T>) {
    Ascending(less, q) && Holds(q, s)
  }

  lemma {:induction false} AscendingAt<T>(less: (T, T) -> bool, q: seq<T>, i: nat, j: nat)
    requires Ascending(less, q) && i < j < |q|
    ensures less(q[i], q[j])
  {
    if i == 0 {
      assert q[j] == q[1..][j-1];
    } else {
      AscendingAt(less, q[1..], i - 1, j - 1);
    }
  }

  function Insert<T>(less: (T, T) -> bool, x: T, q: seq<T>): seq<T> {
    if q == [] then [x]
    else if less(x, q[0]) then [x] + q
    else [q[0]] + Insert(less, x, q[1..])
  }

  lemma {:induction false} InsertHolds<T(!new)>(less: (T, T) -> bool, x: T, q: seq<T>)
    ensures forall y :: y in Insert(less, x, q) <==> y == x || y in q
  {
    if q != [] {
      assert q == [q[0]] + q[1..];
      InsertHolds(less, x, q[1..]);
    }
  }

  lemma {:induction false} InsertAscending<T(!new)>(less: (T, T) -> bool, x: T, q: seq<T>, s: set<T>)
    requires Ascending(less, q) && x !in q && x in s && StrictTotalOn(less, s)
    requires forall y :: y in q ==> y in s
    ensures Ascending(less, Insert(less, x, q))
  {
    if q != [] {
      var h, t := q[0], q[1..];
      assert h in q && forall y | y in t :: y in q;
      var r := Insert(less, x, q);
      if less(x, h) {
        assert r[1..] == q;
        assert BelowAll(less, x, q) by {
          forall y | y in q ensures less(x, y) {
            if y != h { assert y in t; }
          }
        }
      } else {
        InsertAscending(less, x, t, s);
        InsertHolds(less, x, t);
        assert r[1..] == Insert(less, x, t);
      }
    }
  }

  lemma InsertSorted<T(!new)>(less: (T, T) -> bool, x: T, q: seq<T>, s: set<T>)
    requires IsSorted(less, q, s) && x !in s && StrictTotalOn(less, s + {x})
    ensures IsSorted(less, Insert(less, x, q), s + {x})
  {
    InsertAscending(less, x, q, s + {x});
    InsertHolds(less, x, q);
  }

  /** The ascending sequence of the elements of `s`. */
  ghost function Sorted<T(!new)>(less: (T, T) -> bool, s: set<T>): (q: seq<T>)
    requires StrictTotalOn(less, s)
    ensures IsSorted(less, q, s)
  {
    if s == {} then []
    else
      var x :| x in s;
      var q := Sorted(less, s - {x});
      assert s - {x} + {x} == s;
      InsertSorted(less, x, q, s - {x});
      Insert(less, x, q)
  }

  lemma {:induction false} SortedUnique<T(!new)>(less: (T, T) -> bool, q: seq<T>, r: seq<T>, s: set<T>)
    requires StrictTotalOn(less, s)
    requires IsSorted(less, q, s) && IsSorted(less, r, s)
    ensures q == r
  {
    if s == {} {
      if q != [] { SomethingToSort(q, s); }
      if r != [] { SomethingToSort(r, s); }
    } else {
      HeadIsLeast(less, q, s);
      HeadIsLeast(less, r, s);
      var h := q[0];
      assert r[0] == h;
      SortedUnique(less, q[1..], r[1..], s - {h});
      assert q == [h] + q[1..] && r == [h] + r[1..];
    }
  }

  lemma SomethingToSort<T(!new)>(q: seq<T>, s: set<T>)
    requires Holds(q, s) && q != []
    ensures s != {}
  {
    assert q[0] in q;
  }

  lemma HeadIsLeast<T(!new)>(less: (T, T) -> bool, q: seq<T>, s: set<T>)
    requires StrictTotalOn(less, s) && IsSorted(less, q, s) && s != {}
    ensures q != [] && q[0] in s && IsSorted(less, q[1..], s - {q[0]})
    ensures forall y | y in s :: y == q[0] || (less(q[0], y) && !less(y, q[0]))
  {
    var x :| x in s;
    assert x in q;
    var h, t := q[0], q[1..];
    assert q == [h] + t;
    assert h in q;
  }

  /** A sorting routine for slices without repetitions; `sort.Strings` and
      `sort.Slice` are used only on such slices here. */
  method Sort<T(!new, ==)>(less: (T, T) -> bool, xs: seq<T>, ghost s: set<T>) returns (q: seq<T>)
    requires StrictTotalOn(less, s)
    requires Distinct(xs) && Holds(xs, s)
    ensures q == Sorted(less, s)
  {
    q := [];
    ghost var done: set<T> := {};
    for i := 0 to |xs|
      invariant forall x :: x in done <==> x in xs[..i]
      invariant IsSorted(less, q, done)
    {
      assert xs[..i+1] == xs[..i] + [xs[i]];
      assert done + {xs[i]} <= s by { assert forall x | x in done + {xs[i]} :: x in xs; }
      InsertSorted(less, xs[i], q, done);
      q := Insert(less, xs[i], q);
      done := done + {xs[i]};
    }
    assert xs[..|xs|] == xs;
    assert done == s;
    SortedUnique(less, q, Sorted(less, s), s);
  }
}
