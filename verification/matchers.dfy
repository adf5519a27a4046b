/** PHPUnit constraints, seen from this library.

    A PHPUnit `Constraint` is modelled as a predicate over the values it
    tests together with its `toString()` text.  The library accepts either
    a constraint or a plain expected value wherever it declares an
    expectation; a plain value is wrapped in `IsIdentical`.  PHPUnit's own
    failure texts render the tested value with its Exporter; here a failure
    text names the constraint's description instead. */
module Matchers {
  import opened Php
  import opened PhpStrings

  datatype Matcher<!V> = Matcher(accepts: V -> bool, text: string)

  /** An expectation as the fluent builders receive it: a plain value
      (with the Exporter's rendering of it) or a constraint. */
  datatype Expected<!V> = Raw(value: V, shown: string) | Is(matcher: Matcher<V>)

  /** `new IsIdentical($value)`. */
  function Identical<V(==)>(value: V, shown: string): Matcher<V>
  {
    Matcher(x => x == value, "is identical to " + shown)
  }

  /** `new IsEqual($value)`: PHPUnit's comparator, which is not part of
      this model, is the parameter `equals` (expected value first). */
  function EqualTo<V>(value: V, shown: string, equals: (V, V) -> bool): Matcher<V>
  {
    Matcher(x => equals(value, x), "is equal to " + shown)
  }

  /** `new IsInstanceOf($className)`: the class hierarchy, which is not
      part of this model, is the parameter `isA` (class, then ancestor). */
  function InstanceOf(className: string, isA: (string, string) -> bool): (m: Matcher<Value>)
    ensures forall v :: m.accepts(v) <==> v.Obj? && isA(v.obj.className, className)
  {
    Matcher((v: Value) => v.Obj? && isA(v.obj.className, className), "is an instance of class " + className)
  }

  /** `new IsAnything()`. */
  function Anything<V>(): Matcher<V>
  {
    Matcher(x => true, "is anything")
  }

  /** `$e instanceof Constraint ? $e : new IsIdentical($e)`. */
  function Normalize<V(==)>(e: Expected<V>): (m: Matcher<V>)
    ensures e.Raw? ==> m.text == "is identical to " + e.shown
    ensures e.Is? ==> m == e.matcher
  {
    match e
    case Raw(v, shown) => Identical(v, shown)
    case Is(m) => m
  }

  /** A plain string expectation, shown as the Exporter quotes it. */
  function PlainString(s: string): (e: Expected<Value>)
    ensures e.Raw? && e.value == Str(s)
  {
    Raw(Str(s), "'" + s + "'")
  }

  /** The corrected reading of a plain `Stringable` expectation for a
      field recorded as a string: it stands for its string.  As declared,
      the object itself is compared by identity and never matches
      (`StringableNeverIdentical`); the recorders' builders use this
      corrected form. */
  function AsStringExpected(e: Expected<Value>): (r: Expected<Value>)
    ensures e.Is? ==> r == e
    ensures e.Raw? ==> r.Raw? && r.shown == e.shown
    ensures e.Raw? && IsStringLike(e.value) ==> r.value == Str(AsString(e.value))
    ensures e.Raw? && !IsStringLike(e.value) ==> r.value == e.value
  {
    if e.Raw? && IsStringLike(e.value) then Raw(Str(AsString(e.value)), e.shown) else e
  }

  /** As the fields are declared in the source, a plain `Stringable`
      object goes into `IsIdentical` as it is, and an object is never
      identical to the string the recorder stores: the expectation rejects
      every element. */
  lemma StringableNeverIdentical(o: Object, shown: string, recorded: string)
    ensures !Normalize(Raw(Obj(o), shown)).accepts(Str(recorded))
  {
  }

  /** Compared by its string, the same expectation accepts exactly the
      elements recording that string. */
  lemma StringableComparedByText(o: Object, shown: string, recorded: string)
    requires o.text.Some?
    ensures Normalize(AsStringExpected(Raw(Obj(o), shown))).accepts(Str(recorded)) <==> recorded == o.text.value
  {
  }

  /** A plain value is compared by identity: the wrapped value accepts
      exactly the value itself. */
  lemma NormalizeRaw<V>(v: V, shown: string, x: V)
    ensures Normalize(Raw(v, shown)).accepts(x) <==> x == v
  {
  }

  /** The text `Constraint::fail()` gives an `ExpectationFailedException`:
      the description, when not empty, on a line of its own first. */
  function FailText(description: string, failure: string): (t: string)
    ensures !EmptyString(description) ==> t == description + "\n" + failure
    ensures EmptyString(description) ==> t == failure
  {
    if EmptyString(description) then failure else description + "\n" + failure
  }

  function Rejection<V>(m: Matcher<V>, description: string): string
  {
    FailText(description, "Failed asserting that " + m.text + ".")
  }

  /** `Constraint::evaluate($other, $description, $returnResult)`:
      with `returnResult` the verdict is returned; otherwise a pass returns
      null and a failure throws an `ExpectationFailedException`. */
  function Evaluate<V>(m: Matcher<V>, other: V, description: string, returnResult: bool): (r: Result<Option<bool>>)
    ensures returnResult ==> r == Ok(Some(m.accepts(other)))
    ensures !returnResult && m.accepts(other) ==> r == Ok(None)
    ensures !returnResult && !m.accepts(other) ==> r == Throws(ExpectationFailed(Failure(Rejection(m, description), None)))
  {
    if returnResult then Ok(Some(m.accepts(other)))
    else if m.accepts(other) then Ok(None)
    else Throws(ExpectationFailed(Failure(Rejection(m, description), None)))
  }

  /** `IsEqual::evaluate`, which overrides the base one: a pass returns
      true whatever `returnResult` says; a rejection is handled as the base
      handles it. */
  function EvaluateEqual<V>(m: Matcher<V>, other: V, description: string, returnResult: bool): (r: Result<Option<bool>>)
    ensures m.accepts(other) ==> r == Ok(Some(true))
    ensures !m.accepts(other) ==> r == Evaluate(m, other, description, returnResult)
  {
    if m.accepts(other) then Ok(Some(true)) else Evaluate(m, other, description, returnResult)
  }

  /** `Constraint::evaluate` of a constraint with its own `matches`, which
      may throw, and its own `failureDescription`, `failure`. */
  function EvaluateMatches(matches: Result<bool>, failure: string, description: string, returnResult: bool)
    : (r: Result<Option<bool>>)
    ensures matches.Throws? ==> r == Throws(matches.error)
    ensures matches.Ok? && returnResult ==> r == Ok(Some(matches.value))
    ensures matches == Ok(true) && !returnResult ==> r == Ok(None)
    ensures matches == Ok(false) && !returnResult ==>
      r == Throws(ExpectationFailed(Failure(FailText(description, "Failed asserting that " + failure + "."), None)))
  {
    if matches.Throws? then Throws(matches.error)
    else if returnResult then Ok(Some(matches.value))
    else if matches.value then Ok(None)
    else Throws(ExpectationFailed(Failure(FailText(description, "Failed asserting that " + failure + "."), None)))
  }
}
