/** `TestConstraintCollection`: a growable list of constraints with the
    same early-exit conjunction as `TestConstraintGroup`. */
module TestConstraintCollections {
  import opened TestConstraints
  import opened TestConstraintGroups

  class TestConstraintCollection<T> {
    var constraints: seq<TestConstraint<T>>

    constructor ()
      ensures constraints == []
    {
      constraints := [];
    }

    /** Appends one constraint and returns the collection itself. */
    method AddConstraint(c: TestConstraint<T>) returns (self: TestConstraintCollection<T>)
      modifies this
      ensures constraints == old(constraints) + [c]
      ensures self == this
    {
      constraints := constraints + [c];
      self := this;
    }

    function Evaluate(other: T): (r: bool)
      reads this
      ensures r <==> forall i :: 0 <= i < |constraints| ==> constraints[i].accepts(other)
    {
      AllAccept(constraints, other)
    }
  }
}
