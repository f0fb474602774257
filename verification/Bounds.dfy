/** Finite sets of numbers leave numbers unused. */
module Bounds {
  lemma {:induction false} BoundOf(used: set<nat>) returns (b: nat)
    ensures forall x :: x in used ==> x < b
  {
    b := 0;
    if used != {} {
      var x :| x in used;
      var c := BoundOf(used - {x});
      assert forall y :: y in used ==> y == x || y in used - {x};
      b := if x < c then c else x + 1;
    }
  }
}
