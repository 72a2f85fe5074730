/** The optional value used wherever the C code passes a pointer that may be NULL, and facts about
    finite sets and the orders in which they can be listed. */
module Wrappers {

  datatype Option<+T> = None | Some(value: T)

  lemma SubsetSize<T>(a: set<T>, b: set<T>)
    requires a <= b
    ensures |a| <= |b|
  {
    assert b == a + (b - a);
  }

  /** The sequence enumerates the set, each element once: an order in which a hash map may yield its keys. */
  ghost predicate Enumerates<T>(order: seq<T>, s: set<T>) {
    && (forall i, j :: 0 <= i < j < |order| ==> order[i] != order[j])
    && (forall k :: k in order ==> k in s) && (forall k :: k in s ==> k in order)
  }

  /** Some order of the elements of a set. */
  ghost function Listing<T(!new)>(s: set<T>): (order: seq<T>)
    ensures Enumerates(order, s)
  {
    if s == {} then []
    else
      var k :| k in s;
      [k] + Listing(s - {k})
  }

  /** The elements of a set in an unspecified order. */
  method AnyOrder<T(==)>(s: set<T>) returns (order: seq<T>)
    ensures Enumerates(order, s)
  {
    order := [];
    var rest := s;
    while rest != {}
      invariant rest <= s
      invariant Enumerates(order, s - rest)
      decreases rest
    {
      var k :| k in rest;
      order, rest := order + [k], rest - {k};
    }
  }
}
