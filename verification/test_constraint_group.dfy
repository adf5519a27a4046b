/** `TestConstraintGroup`: a read-only list of constraints that accepts an
    element when every member does, trying the members in order and
    stopping at the first that rejects. */
module TestConstraintGroups {
  import opened Php
  import opened TestConstraints

  datatype TestConstraintGroup<!T> = TestConstraintGroup(constraints: seq<TestConstraint<T>>)

  /** The early-exit conjunction of `evaluate()`. */
  function AllAccept<T>(cs: seq<TestConstraint<T>>, other: T): (r: bool)
    ensures r <==> forall i :: 0 <= i < |cs| ==> cs[i].accepts(other)
  {
    if cs == [] then true
    else if !cs[0].accepts(other) then false
    else AllAccept(cs[1..], other)
  }

  /** How many members `evaluate()` asks before it answers: all of them
      when all accept, otherwise up to and including the first rejecting
      one. */
  function Tried<T>(cs: seq<TestConstraint<T>>, other: T): (n: nat)
    ensures n <= |cs|
    ensures forall i :: 0 <= i < n - 1 ==> cs[i].accepts(other)
    ensures n < |cs| ==> n > 0 && !cs[n - 1].accepts(other)
    ensures n == |cs| && n > 0 ==> (cs[n - 1].accepts(other) <==> AllAccept(cs, other))
  {
    if cs == [] then 0
    else if !cs[0].accepts(other) then 1
    else 1 + Tried(cs[1..], other)
  }

  function Evaluate<T>(g: TestConstraintGroup<T>, other: T): (r: bool)
    ensures r <==> forall i :: 0 <= i < |g.constraints| ==> g.constraints[i].accepts(other)
  {
    AllAccept(g.constraints, other)
  }

  /** `evaluate()` as written.  Each member is a `TestConstraint` called
      without `returnResult`, so it hands back what its delegate's
      `evaluate` gives in throwing mode: a thrown
      `ExpectationFailedException` on a rejection, and on a pass either
      null, from the base `Constraint::evaluate` that `IsIdentical` (every
      plain value) keeps, or true, from a delegate such as `IsEqual` that
      overrides it (`truePass`).  `!null` holds, so a null pass ends the
      loop with false. */
  function EvaluateAsWritten<T>(cs: seq<TestConstraint<T>>, other: T, truePass: TestConstraint<T> -> bool): Result<bool>
  {
    if cs == [] then Ok(true)
    else
      var r := TestConstraints.Evaluate(cs[0], other, false);
      if r.Throws? then Throws(r.error)
      else if !truePass(cs[0]) then Ok(false)
      else EvaluateAsWritten(cs[1..], other, truePass)
  }

  /** As written, a group matches iff every member accepts and returns true
      on its pass; when it throws, it throws the failure of a rejecting
      member, all members before which passed with true. */
  lemma {:induction false} EvaluateAsWrittenSpec<T>(cs: seq<TestConstraint<T>>, other: T, truePass: TestConstraint<T> -> bool)
    ensures EvaluateAsWritten(cs, other, truePass) == Ok(true) <==>
      forall i :: 0 <= i < |cs| ==> cs[i].accepts(other) && truePass(cs[i])
    ensures EvaluateAsWritten(cs, other, truePass).Throws? ==>
      exists i :: 0 <= i < |cs| && !cs[i].accepts(other)
        && EvaluateAsWritten(cs, other, truePass).error == ExpectationFailed(FailureOf(cs[i]))
  {
    if cs != [] {
      EvaluateOutcomes(cs[0], other, false);
      EvaluateAsWrittenSpec(cs[1..], other, truePass);
      if EvaluateAsWritten(cs, other, truePass) == Ok(true) {
        assert cs[0].accepts(other) && truePass(cs[0]);
        forall i | 1 <= i < |cs|
          ensures cs[i].accepts(other) && truePass(cs[i])
        {
          assert cs[i] == cs[1..][i - 1];
        }
      }
      if forall i :: 0 <= i < |cs| ==> cs[i].accepts(other) && truePass(cs[i]) {
        forall i | 0 <= i < |cs| - 1
          ensures cs[1..][i].accepts(other) && truePass(cs[1..][i])
        {
          assert cs[1..][i] == cs[i + 1];
        }
      }
      if EvaluateAsWritten(cs, other, truePass).Throws? && cs[0].accepts(other) {
        var i :| 0 <= i < |cs[1..]| && !cs[1..][i].accepts(other)
          && EvaluateAsWritten(cs[1..], other, truePass).error == ExpectationFailed(FailureOf(cs[1..][i]));
        assert cs[1..][i] == cs[i + 1];
      }
    }
  }

  /** A group of plain values, as every recorder declares them, never
      matches as written: its first member either passes with null, which
      reads as a rejection, or throws its failure out of the group. */
  lemma PlainGroupNeverMatches<T>(cs: seq<TestConstraint<T>>, other: T, truePass: TestConstraint<T> -> bool)
    requires cs != [] && !truePass(cs[0])
    ensures cs[0].accepts(other) ==> EvaluateAsWritten(cs, other, truePass) == Ok(false)
    ensures !cs[0].accepts(other) ==>
      EvaluateAsWritten(cs, other, truePass) == Throws(ExpectationFailed(FailureOf(cs[0])))
  {
    EvaluateOutcomes(cs[0], other, false);
  }

  /** An empty group accepts everything. */
  lemma EmptyGroupAccepts<T>(other: T)
    ensures Evaluate(TestConstraintGroup([]), other)
  {
  }
}
