/** The optional value used for the bot's "absent" states: an unset
    environment variable, a last message id that has not been seen yet,
    a dictionary key that is missing. */
module Wrappers {

  datatype Option<+T> = None | Some(value: T)
}

/** Python list operations used on id lists. */
module Lists {

  predicate NoDuplicates<T(==)>(s: seq<T>) {
    forall i, j :: 0 <= i < j < |s| ==> s[i] != s[j]
  }

  /** Python's `x in xs` on a list: a left-to-right scan comparing with `==`. */
  function ListContains<T(==)>(xs: seq<T>, x: T): (b: bool)
    ensures b <==> exists i :: 0 <= i < |xs| && xs[i] == x
    decreases |xs|
  {
    if xs == [] then false
    else if xs[0] == x then true
    else
      assert forall i :: 1 <= i < |xs| ==> xs[i] == xs[1..][i - 1];
      ListContains(xs[1..], x)
  }
}
