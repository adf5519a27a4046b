/** `ListArrayContains`: the expected list is compared position by position
    with the input; every position that fails adds a line to one failure. */
module ListArrayContainsConstraint {
  import opened Php
  import opened PhpStrings
  import opened PhpArrays
  import opened Matchers

  datatype ListArrayContains = ListArrayContains(value: PhpArray<Expected<Value>>)

  const Text := "contains another list array"

  const NotList := "Cannot use this constraint with non list array, use AssociativeArrayContains instance instead."

  /** The constructor: only a list is accepted. */
  function New(value: PhpArray<Expected<Value>>): (r: Result<ListArrayContains>)
    ensures r.Throws? <==> !IsList(value)
    ensures r.Throws? ==> r.error == InvalidArgument(NotList)
    ensures r.Ok? ==> r.value.value == value
  {
    if IsList(value) then Ok(ListArrayContains(value)) else Throws(InvalidArgument(NotList))
  }

  /** The engine error of `$other[$index]` on an object that does not
      implement `ArrayAccess`. */
  function NotAnArray(o: Object): Exception
  {
    Error("Cannot use object of type " + o.className + " as array")
  }

  /** `$other[$index]` where it does not raise that error: an offset that
      is missing reads as null; a string gives its character at that
      offset, or "" past its end; any other value reads as null. */
  function At(other: Value, i: nat, access: Access): Value
  {
    match Offsets(other, access)
    case Some(a) => GetOr(a, IntKey(i), Null)
    case None => if other.Str? then (if i < |other.s| then Str([other.s[i]]) else Str("")) else Null
  }

  /** Position `i` holds: `ArrayHasKey` finds the index and its value is
      accepted. */
  predicate Holds(other: Value, i: nat, e: Expected<Value>, access: Access)
  {
    match Offsets(other, access)
    case Some(a) => HasKey(a, IntKey(i)) && Normalize(e).accepts(Get(a, IntKey(i)))
    case None => false
  }

  /** `sprintf('%d. %s', $index, $value->failureDescription($other[$index]))`,
      `exporter` standing for PHPUnit's Exporter. */
  function Line(i: nat, e: Expected<Value>, v: Value, exporter: Value -> string): string
  {
    NatToString(i) + ". " + exporter(v) + " " + Normalize(e).text
  }

  /** What position `i` adds: nothing when it holds, its line otherwise. */
  function LineIfFails(i: nat, e: Expected<Value>, other: Value, access: Access, exporter: Value -> string): (ls: seq<string>)
    ensures ls == [] <==> Holds(other, i, e, access)
    ensures !Holds(other, i, e, access) ==> ls == [Line(i, e, At(other, i, access), exporter)]
  {
    if Holds(other, i, e, access) then [] else [Line(i, e, At(other, i, access), exporter)]
  }

  /** The lines of the failing positions, in order. */
  function Lines(value: PhpArray<Expected<Value>>, other: Value, access: Access, exporter: Value -> string): seq<string>
  {
    if value == [] then []
    else
      var n := |value| - 1;
      Lines(value[..n], other, access, exporter) + LineIfFails(n, value[n].1, other, access, exporter)
  }

  /** `fail($errors, $description)` with `failureDescription` joining the
      lines. */
  function FailureText(lines: seq<string>, description: string): string
  {
    FailText(description, "Failed asserting that " + Join(lines, "\n") + ".")
  }

  /** `evaluate($other, $description, $returnResult)`: every position is
      checked and each failing one adds its line; on an object that does
      not implement `ArrayAccess`, reading the first failing position for
      its line is the engine error, whatever `returnResult`. */
  method Evaluate(c: ListArrayContains, other: Value, description: string, returnResult: bool, access: Access,
                  exporter: Value -> string)
    returns (r: Result<Option<bool>>)
    requires IsList(c.value)
    ensures other.Obj? && access(other.obj).None? && c.value != [] ==> r == Throws(NotAnArray(other.obj))
    ensures !(other.Obj? && access(other.obj).None? && c.value != []) ==>
      var lines := Lines(c.value, other, access, exporter);
      && (returnResult ==> r == Ok(Some(lines == [])))
      && (!returnResult && lines == [] ==> r == Ok(None))
      && (!returnResult && lines != [] ==> r == Throws(ExpectationFailed(Failure(FailureText(lines, description), None))))
  {
    var success := true;
    var errors: seq<string> := [];
    for i := 0 to |c.value|
      invariant errors == Lines(c.value[..i], other, access, exporter)
      invariant success <==> errors == []
      invariant other.Obj? && access(other.obj).None? ==> i == 0
    {
      var e := c.value[i].1;
      assert c.value[..i + 1][..i] == c.value[..i];
      if !Holds(other, i, e, access) {
        if other.Obj? && access(other.obj).None? {
          return Throws(NotAnArray(other.obj));
        }
        success := false;
        errors := errors + [Line(i, e, At(other, i, access), exporter)];
      }
    }
    assert c.value[..|c.value|] == c.value;
    if returnResult {
      return Ok(Some(success));
    }
    if !success {
      return Throws(ExpectationFailed(Failure(FailureText(errors, description), None)));
    }
    return Ok(None);
  }

  /** The last position's line, if any, comes last. */
  lemma LinesLast(value: PhpArray<Expected<Value>>, other: Value, access: Access, exporter: Value -> string)
    requires value != []
    ensures var n := |value| - 1;
      Lines(value, other, access, exporter) == Lines(value[..n], other, access, exporter) + LineIfFails(n, value[n].1, other, access, exporter)
  {
  }

  /** No line is written iff every position holds. */
  lemma {:induction false} LinesEmptyIff(value: PhpArray<Expected<Value>>, other: Value, access: Access, exporter: Value -> string)
    ensures Lines(value, other, access, exporter) == [] <==> forall i :: 0 <= i < |value| ==> Holds(other, i, value[i].1, access)
  {
    if value != [] {
      var n := |value| - 1;
      var init := value[..n];
      LinesEmptyIff(init, other, access, exporter);
      var last := LineIfFails(n, value[n].1, other, access, exporter);
      LinesLast(value, other, access, exporter);
      if forall i :: 0 <= i < |value| ==> Holds(other, i, value[i].1, access) {
        forall i | 0 <= i < n
          ensures Holds(other, i, init[i].1, access)
        {
          assert init[i] == value[i];
        }
      }
      if (forall i :: 0 <= i < n ==> Holds(other, i, init[i].1, access)) && Holds(other, n, value[n].1, access) {
        forall i | 0 <= i < |value|
          ensures Holds(other, i, value[i].1, access)
        {
          if i < n {
            assert init[i] == value[i];
          }
        }
      }
    }
  }

  /** One line per failing position, each numbered by its position. */
  lemma {:induction false} LinesNumbered(value: PhpArray<Expected<Value>>, other: Value, access: Access, exporter: Value -> string, i: nat)
    requires i < |value| && !Holds(other, i, value[i].1, access)
    ensures Line(i, value[i].1, At(other, i, access), exporter) in Lines(value, other, access, exporter)
  {
    var n := |value| - 1;
    if i < n {
      assert value[..n][i] == value[i];
      LinesNumbered(value[..n], other, access, exporter, i);
    }
  }

  /** Against a list, the constraint passes iff the list is at least as
      long as the expectation and each of its first values is accepted by
      the expectation at the same position. */
  lemma ListVerdict(c: ListArrayContains, other: PhpArray<Value>, access: Access, exporter: Value -> string)
    requires IsList(other)
    ensures Lines(c.value, Arr(other), access, exporter) == [] <==>
      |c.value| <= |other| && forall i :: 0 <= i < |c.value| ==> Normalize(c.value[i].1).accepts(other[i].1)
  {
    LinesEmptyIff(c.value, Arr(other), access, exporter);
    forall i: nat | i < |c.value|
      ensures Holds(Arr(other), i, c.value[i].1, access) <==> i < |other| && Normalize(c.value[i].1).accepts(other[i].1)
    {
      ListHasKey(other, i);
    }
    if |c.value| > |other| {
      ListHasKey(other, |other|);
      assert !Holds(Arr(other), |other|, c.value[|other|].1, access);
    }
  }

  /** Elements past the expectation's length never matter. */
  lemma ExtraElementsIgnored(c: ListArrayContains, a: PhpArray<Value>, b: PhpArray<Value>, access: Access,
                             exporter: Value -> string)
    requires IsList(a) && IsList(b) && |c.value| <= |a| <= |b|
    requires a == b[..|a|]
    ensures Lines(c.value, Arr(a), access, exporter) == [] <==> Lines(c.value, Arr(b), access, exporter) == []
  {
    ListVerdict(c, a, access, exporter);
    ListVerdict(c, b, access, exporter);
    assert forall i :: 0 <= i < |a| ==> a[i] == b[i];
  }

  /** An `ArrayAccess` object passes exactly when the array of its offsets
      would. */
  lemma ArrayAccessAsArray(c: ListArrayContains, o: Object, access: Access, exporter: Value -> string)
    requires access(o).Some?
    ensures Lines(c.value, Obj(o), access, exporter) == [] <==> Lines(c.value, Arr(access(o).value), access, exporter) == []
  {
    LinesEmptyIff(c.value, Obj(o), access, exporter);
    LinesEmptyIff(c.value, Arr(access(o).value), access, exporter);
  }

  /** A value `ArrayHasKey` finds no offset in (neither an array nor an
      `ArrayAccess` object) fails every position. */
  lemma NonArrayFailsAll(c: ListArrayContains, other: Value, access: Access, exporter: Value -> string)
    requires Offsets(other, access).None? && c.value != []
    ensures Lines(c.value, other, access, exporter) != []
  {
    LinesEmptyIff(c.value, other, access, exporter);
    assert !Holds(other, 0, c.value[0].1, access);
  }
}
