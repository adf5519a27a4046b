/** `AssociativeArrayContains`: the boolean form of `ArrayContains` for
    associative expectations.  It stops at the first expected key that is
    missing or rejected. */
module AssociativeArrayContainsConstraint {
  import opened Php
  import opened PhpArrays
  import opened Matchers
  import opened ArrayContainsConstraint

  datatype AssociativeArrayContains = AssociativeArrayContains(value: PhpArray<Expected<Value>>, strict: bool)

  const Text := "contains another associative array"

  const NotAssociative := "Cannot use this constraint with non associative array, use TraversableContains instance instead."

  /** The constructor: a list, the empty array included, is refused. */
  function New(value: PhpArray<Expected<Value>>, strict: bool): (r: Result<AssociativeArrayContains>)
    ensures r.Throws? <==> IsList(value)
    ensures r.Throws? ==> r.error == InvalidArgument(NotAssociative)
    ensures r.Ok? ==> r.value.value == value && r.value.strict == strict && value != []
  {
    if IsList(value) then Throws(InvalidArgument(NotAssociative))
    else Ok(AssociativeArrayContains(value, strict))
  }

  /** `empty($other)` once the expected keys are unset: an array is empty
      when nothing else is left; an object never is, whatever offsets it
      still holds; any other value is empty when it is falsy. */
  predicate EmptyAfter(c: AssociativeArrayContains, other: Value)
  {
    if other.Arr? then Without(other.entries, KeysOf(c.value)) == [] else !Truthy(other)
  }

  /** What `matches` decides: every expected entry holds in what
      `ArrayHasKey` and `$other[$key]` read (so a value without offsets
      only passes an empty expectation), and in strict mode the value is
      empty once the expected keys are unset. */
  predicate Contains(c: AssociativeArrayContains, other: Value, access: Access)
  {
    && (match Offsets(other, access)
        case Some(a) => AllKeysHold(c.value, a)
        case None => c.value == [])
    && (!c.strict || EmptyAfter(c, other))
  }

  /** `matches($other)`: each expected key in turn must be present in the
      working copy with an accepted value, and is then unset (on an
      `ArrayAccess` object, through `offsetUnset`); the first failure ends
      the loop. */
  method Matches(c: AssociativeArrayContains, other: Value, access: Access) returns (b: bool)
    requires UniqueKeys(c.value)
    ensures b == Contains(c, other, access)
  {
    var offsets := Offsets(other, access);
    if offsets.None? {
      // `ArrayHasKey` refuses the first expected key, if there is one.
      if c.value != [] {
        return false;
      }
      return !c.strict || !Truthy(other);
    }
    var a := offsets.value;
    var work := a;
    WithoutNothing(a);
    for i := 0 to |c.value|
      invariant work == Without(a, KeysOf(c.value[..i]))
      invariant AllKeysHold(c.value[..i], a)
    {
      var (k, e) := c.value[i];
      KeyStep(c.value, a, i);
      AllKeysHoldSnoc(c.value, a, i);
      if !HasKey(work, k) || !Normalize(e).accepts(Get(work, k)) {
        assert !KeyHolds(c.value[i].0, c.value[i].1, a);
        return false;
      }
      work := Unset(work, k);
    }
    assert c.value[..|c.value|] == c.value;
    return !c.strict || (other.Arr? && work == []);
  }

  /** The constraint as PHPUnit's `evaluate` sees it. */
  function AsMatcher(c: AssociativeArrayContains, access: Access): (m: Matcher<Value>)
    ensures m.text == Text
    ensures forall other :: m.accepts(other) == Contains(c, other, access)
  {
    Matcher(other => Contains(c, other, access), Text)
  }

  /** For a constraint the constructor accepts, `matches` agrees with
      `ArrayContains` in the same mode: an array passes iff `ArrayContains`
      reports no failure; an `ArrayAccess` object passes iff the
      non-strict `ArrayContains` finds no failure in its offsets and the
      mode is not strict; any other value never passes. */
  lemma AgreesWithArrayContains(c: AssociativeArrayContains, other: Value, access: Access)
    requires New(c.value, c.strict).Ok?
    ensures other.Arr? ==> (Contains(c, other, access) <==> Errors(ArrayContains(c.value, c.strict), other.entries) == [])
    ensures other.Obj? && access(other.obj).Some? ==>
      (Contains(c, other, access) <==> !c.strict && Errors(ArrayContains(c.value, false), access(other.obj).value) == [])
    ensures Offsets(other, access).None? ==> !Contains(c, other, access)
  {
    if Offsets(other, access).Some? {
      var a := Offsets(other, access).value;
      var ac := ArrayContains(c.value, c.strict);
      ErrorsEmptyIff(ac, a);
      ErrorsEmptyIff(ArrayContains(c.value, false), a);
      LeftoverEmptyIff(ac, a);
    }
  }
}
