/** Optional values, used for absent request fields and for parses that fail. */
module Wrappers {

  datatype Option<+T> = None | Some(value: T)
}

/** Finite sets of natural numbers (row ids): the least element of a non-empty set. */
module NatSets {

  /** The smallest element of a non-empty set of ids. */
  ghost function LeastOf(s: set<nat>): (m: nat)
    requires s != {}
    ensures m in s
    ensures forall x :: x in s ==> m <= x
    decreases s
  {
    var x :| x in s;
    assert forall y :: y in s ==> y == x || y in s - {x};
    if s == {x} then x
    else
      var rest := LeastOf(s - {x});
      if x <= rest then x else rest
  }

  /** Every finite set of ids has a strict upper bound, so some id is always unused. */
  lemma {:induction false} UpperBound(s: set<nat>) returns (b: nat)
    ensures forall x :: x in s ==> x < b
    decreases s
  {
    if s == {} {
      b := 0;
    } else {
      var x :| x in s;
      var b' := UpperBound(s - {x});
      b := if x + 1 > b' then x + 1 else b';
      forall y | y in s ensures y < b {
        if y != x {
          assert y in s - {x};
        }
      }
    }
  }
}
