/** Notions that several parts of the system share. */
module Basics {

  datatype Option<+T> = None | Some(value: T)

  predicate Distinct<T(==)>(q: seq<T>) {
    forall i, j | 0 <= i < j < |q| :: q[i] != q[j]
  }

  /** The first position of `x`, or the length of the sequence when it is not there. */
  function IndexOf<T(==)>(q: seq<T>, x: T): (k: nat)
    ensures k <= |q| && x !in q[..k] && (k < |q| ==> q[k] == x)
  {
    if q == [] || q[0] == x then 0
    else
      var k := IndexOf(q[1..], x);
      assert q[..k+1] == [q[0]] + q[1..][..k];
      k + 1
  }
}
