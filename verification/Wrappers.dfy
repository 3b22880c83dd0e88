/** Result and option types shared by every component. */
module Wrappers {
  datatype Option<+T> = None | Some(value: T)

  datatype Result<+T, +E> = Success(value: T) | Failure(error: E)

  /** A non-empty set has an element. */
  lemma PickFrom<T>(s: set<T>) returns (x: T)
    requires s != {}
    ensures x in s
  {
    x :| x in s;
  }

  /** The elements of a set, one by one, in any order. */
  method InAnyOrder<T(==)>(items: set<T>) returns (q: seq<T>)
    ensures forall x :: x in q <==> x in items
    ensures forall i, j :: 0 <= i < j < |q| ==> q[i] != q[j]
  {
    q := [];
    var left := items;
    while left != {}
      invariant left <= items && forall x :: x in q <==> x in items && x !in left
      invariant forall i, j :: 0 <= i < j < |q| ==> q[i] != q[j]
      decreases |left|
    {
      var x :| x in left;
      assert forall i :: 0 <= i < |q| ==> q[i] in q;
      q := q + [x];
      left := left - {x};
    }
  }
}
