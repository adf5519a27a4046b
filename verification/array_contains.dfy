/** `ArrayContains`: every expected key must be present with a value the
    expectation accepts; in strict mode no other key may be present.  All
    failures are collected and reported together. */
module ArrayContainsConstraint {
  import opened Php
  import opened PhpArrays
  import opened Matchers
  import TestFailedException

  datatype ArrayContains = ArrayContains(value: PhpArray<Expected<Value>>, strict: bool)

  /** `toString()`. */
  const Text := "contains another array"

  function MissingKey(k: Key): Failure
  {
    Failure("Failed asserting that key/index \"" + KeyText(k) + "\" exist.", None)
  }

  function ExtraKey(k: Key): Failure
  {
    Failure("Failed asserting that key/index \"" + KeyText(k) + "\" does not exist.", None)
  }

  /** The description a value check runs under. */
  function KeyDescription(k: Key): string
  {
    "- key/index: " + KeyText(k)
  }

  /** The expected entry `(k, e)` holds in `other`: the key is there and
      its value is accepted. */
  predicate KeyHolds(k: Key, e: Expected<Value>, other: PhpArray<Value>)
  {
    HasKey(other, k) && Normalize(e).accepts(Get(other, k))
  }

  /** The failures one expected entry contributes: a missing key, or the
      failure the value check throws. */
  function KeyError(k: Key, e: Expected<Value>, other: PhpArray<Value>): (fs: seq<Failure>)
    ensures fs == [] <==> KeyHolds(k, e, other)
    ensures !HasKey(other, k) ==> fs == [MissingKey(k)]
    ensures HasKey(other, k) && !KeyHolds(k, e, other) ==>
      fs == [Failure(Rejection(Normalize(e), KeyDescription(k)), None)]
  {
    if !HasKey(other, k) then [MissingKey(k)]
    else
      var r := Matchers.Evaluate(Normalize(e), Get(other, k), KeyDescription(k), false);
      if r.Throws? && r.error.ExpectationFailed? then [r.error.failure] else []
  }

  /** The failures of the expected entries, in the expected array's order. */
  function KeyErrors(expected: PhpArray<Expected<Value>>, other: PhpArray<Value>): seq<Failure>
  {
    if expected == [] then []
    else
      var last := expected[|expected| - 1];
      KeyErrors(expected[..|expected| - 1], other) + KeyError(last.0, last.1, other)
  }

  /** One failure per leftover entry, in the input's order. */
  function ExtraErrors(rest: PhpArray<Value>): (fs: seq<Failure>)
    ensures |fs| == |rest|
    ensures forall j :: 0 <= j < |rest| ==> fs[j] == ExtraKey(rest[j].0)
  {
    seq(|rest|, j requires 0 <= j < |rest| => ExtraKey(rest[j].0))
  }

  /** What is left of the input once every expected key is unset. */
  function Leftover(c: ArrayContains, other: PhpArray<Value>): PhpArray<Value>
  {
    Without(other, KeysOf(c.value))
  }

  /** Every failure `evaluate` collects. */
  function Errors(c: ArrayContains, other: PhpArray<Value>): seq<Failure>
  {
    KeyErrors(c.value, other) + (if c.strict then ExtraErrors(Leftover(c, other)) else [])
  }

  /** The end of `evaluate`: the verdict, or one exception carrying the
      `TestFailedException` message of all failures. */
  function Verdict(errors: seq<Failure>, description: string, returnResult: bool): (r: Result<Option<bool>>)
    ensures returnResult ==> r == Ok(Some(errors == []))
    ensures !returnResult && errors == [] ==> r == Ok(None)
    ensures !returnResult && errors != [] ==>
      r == Throws(ExpectationFailed(Failure(TestFailedException.Message(errors, Some(description)), None)))
  {
    if returnResult then Ok(Some(errors == []))
    else if errors != [] then Throws(ExpectationFailed(Failure(TestFailedException.Message(errors, Some(description)), None)))
    else Ok(None)
  }

  /** One more expected key: its failures come last. */
  lemma KeyErrorsSnoc(expected: PhpArray<Expected<Value>>, other: PhpArray<Value>, i: nat)
    requires i < |expected|
    ensures KeyErrors(expected[..i + 1], other) == KeyErrors(expected[..i], other) + KeyError(expected[i].0, expected[i].1, other)
  {
    var e1 := expected[..i + 1];
    assert e1[..i] == expected[..i];
    assert e1[i] == expected[i];
  }

  /** One more expected key: unsetting it from the working copy is what
      removing it from the input gives, and the working copy still agrees
      with the input on the key. */
  lemma KeyStep(expected: PhpArray<Expected<Value>>, other: PhpArray<Value>, i: nat)
    requires UniqueKeys(expected) && i < |expected|
    ensures var k := expected[i].0;
      var done := KeysOf(expected[..i]);
      && Without(other, KeysOf(expected[..i + 1])) == Unset(Without(other, done), k)
      && HasKey(Without(other, done), k) == HasKey(other, k)
      && (HasKey(other, k) ==> Get(Without(other, done), k) == Get(other, k))
  {
    var k := expected[i].0;
    var done := KeysOf(expected[..i]);
    assert expected[..i + 1][..i] == expected[..i];
    assert KeysOf(expected[..i + 1]) == done + [k];
    WithoutKeepsOthers(other, done, k);
    WithoutSnoc(other, done, k);
  }

  /** The strict-mode loop over what is left of the input. */
  method ReportExtras(rest: PhpArray<Value>) returns (errors: seq<Failure>)
    ensures errors == ExtraErrors(rest)
  {
    errors := [];
    for j := 0 to |rest|
      invariant errors == ExtraErrors(rest[..j])
    {
      assert ExtraErrors(rest[..j + 1]) == ExtraErrors(rest[..j]) + [ExtraKey(rest[j].0)];
      errors := errors + [ExtraKey(rest[j].0)];
    }
    assert rest[..|rest|] == rest;
  }

  /** `evaluate($other, $description, $returnResult)`: the expected keys are
      checked in order, each present one is unset from a local copy of the
      input, and in strict mode every key still in the copy is a failure. */
  method Evaluate(c: ArrayContains, other: Value, description: string, returnResult: bool) returns (r: Result<Option<bool>>)
    requires UniqueKeys(c.value)
    ensures !other.Arr? ==> r == Throws(Logic("Unable to test non array value."))
    ensures other.Arr? ==> r == Verdict(Errors(c, other.entries), description, returnResult)
  {
    if !other.Arr? {
      return Throws(Logic("Unable to test non array value."));
    }
    var work := other.entries;
    var errors: seq<Failure> := [];
    WithoutNothing(work);
    for i := 0 to |c.value|
      invariant work == Without(other.entries, KeysOf(c.value[..i]))
      invariant errors == KeyErrors(c.value[..i], other.entries)
    {
      var (k, e) := c.value[i];
      KeyStep(c.value, other.entries, i);
      KeyErrorsSnoc(c.value, other.entries, i);
      if !HasKey(work, k) {
        errors := errors + [MissingKey(k)];
        UnsetAbsent(work, k);
        continue;
      }
      var outcome := Matchers.Evaluate(Normalize(e), Get(work, k), KeyDescription(k), false);
      if outcome.Throws? && outcome.error.ExpectationFailed? {
        errors := errors + [outcome.error.failure];
      }
      work := Unset(work, k);
    }
    assert c.value[..|c.value|] == c.value;
    if c.strict && work != [] {
      var extra := ReportExtras(work);
      errors := errors + extra;
    }
    assert errors == Errors(c, other.entries);
    r := Verdict(errors, description, returnResult);
  }

  /** The expected entries all hold in `other`. */
  predicate AllKeysHold(expected: PhpArray<Expected<Value>>, other: PhpArray<Value>)
  {
    forall i :: 0 <= i < |expected| ==> KeyHolds(expected[i].0, expected[i].1, other)
  }

  /** The prefixes of the expectation hold one entry at a time. */
  lemma AllKeysHoldSnoc(expected: PhpArray<Expected<Value>>, other: PhpArray<Value>, i: nat)
    requires i < |expected|
    ensures AllKeysHold(expected[..i + 1], other) <==>
      AllKeysHold(expected[..i], other) && KeyHolds(expected[i].0, expected[i].1, other)
  {
    assert forall j :: 0 <= j < i ==> expected[..i + 1][j] == expected[..i][j];
  }

  /** No expected entry fails iff each of them holds. */
  lemma {:induction false} KeyErrorsEmptyIff(expected: PhpArray<Expected<Value>>, other: PhpArray<Value>)
    ensures KeyErrors(expected, other) == [] <==> AllKeysHold(expected, other)
  {
    if expected != [] {
      var n := |expected| - 1;
      assert expected[..n + 1] == expected;
      KeyErrorsEmptyIff(expected[..n], other);
      KeyErrorsSnoc(expected, other, n);
      AllKeysHoldSnoc(expected, other, n);
      var last := KeyError(expected[n].0, expected[n].1, other);
      assert last == [] <==> KeyHolds(expected[n].0, expected[n].1, other);
      assert |KeyErrors(expected, other)| == |KeyErrors(expected[..n], other)| + |last|;
    }
  }

  /** At most one failure per expected entry. */
  lemma {:induction false} KeyErrorsAtMostOneEach(expected: PhpArray<Expected<Value>>, other: PhpArray<Value>)
    ensures |KeyErrors(expected, other)| <= |expected|
  {
    if expected != [] {
      KeyErrorsAtMostOneEach(expected[..|expected| - 1], other);
    }
  }

  /** A missing expected key is reported under its own name. */
  lemma {:induction false} MissingKeyReported(expected: PhpArray<Expected<Value>>, other: PhpArray<Value>, i: nat)
    requires i < |expected| && !HasKey(other, expected[i].0)
    ensures MissingKey(expected[i].0) in KeyErrors(expected, other)
  {
    var n := |expected| - 1;
    if i < n {
      MissingKeyReported(expected[..n], other, i);
    }
  }

  /** The leftover is empty iff every key of the input is expected. */
  lemma LeftoverEmptyIff(c: ArrayContains, other: PhpArray<Value>)
    ensures Leftover(c, other) == [] <==> forall j :: 0 <= j < |other| ==> other[j].0 in KeysOf(c.value)
  {
    var rest := Leftover(c, other);
    if rest != [] {
      assert rest[0] in other;
    }
  }

  /** `evaluate` passes iff every expected key is present with an accepted
      value and, in strict mode, the input has no other key. */
  lemma ErrorsEmptyIff(c: ArrayContains, other: PhpArray<Value>)
    ensures Errors(c, other) == [] <==>
      AllKeysHold(c.value, other) && (c.strict ==> forall j :: 0 <= j < |other| ==> other[j].0 in KeysOf(c.value))
  {
    KeyErrorsEmptyIff(c.value, other);
    LeftoverEmptyIff(c, other);
  }

  /** Outside strict mode extra keys are never reported: there is at most
      one failure per expected key. */
  lemma NonStrictIgnoresExtras(c: ArrayContains, other: PhpArray<Value>)
    requires !c.strict
    ensures |Errors(c, other)| <= |c.value|
    ensures Errors(c, other) == KeyErrors(c.value, other)
  {
    KeyErrorsAtMostOneEach(c.value, other);
  }

  /** In strict mode every input key that is not expected is reported. */
  lemma StrictReportsExtras(c: ArrayContains, other: PhpArray<Value>, j: nat)
    requires c.strict && j < |other| && other[j].0 !in KeysOf(c.value)
    ensures ExtraKey(other[j].0) in Errors(c, other)
  {
    var rest := Leftover(c, other);
    assert other[j] in rest;
    var q :| 0 <= q < |rest| && rest[q] == other[j];
    assert Errors(c, other)[|KeyErrors(c.value, other)| + q] == ExtraKey(other[j].0);
  }

  /** An empty strict expectation accepts exactly the empty array. */
  lemma EmptyStrictAcceptsOnlyEmpty(other: PhpArray<Value>)
    ensures Errors(ArrayContains([], true), other) == [] <==> other == []
  {
    ErrorsEmptyIff(ArrayContains([], true), other);
    if other != [] {
      assert other[0].0 !in KeysOf<Expected<Value>>([]);
    }
  }

  /** The constraint as a predicate over arrays: what `evaluate` with
      `returnResult` answers for an array. */
  function AsMatcher(c: ArrayContains): (m: Matcher<Value>)
    ensures m.text == Text
  {
    Matcher((other: Value) => other.Arr? && Errors(c, other.entries) == [], Text)
  }

  /** Strict containment of a list of expectations in a list: the same
      length, and each element accepted by the expectation at its position. */
  lemma StrictListContains(es: seq<Expected<Value>>, xs: seq<Value>)
    ensures Errors(ArrayContains(FromList(es), true), FromList(xs)) == [] <==>
      |xs| == |es| && forall i :: 0 <= i < |es| ==> Normalize(es[i]).accepts(xs[i])
  {
    var c := ArrayContains(FromList(es), true);
    var a := FromList(xs);
    ErrorsEmptyIff(c, a);
    forall i | 0 <= i < |es|
      ensures KeyHolds(c.value[i].0, c.value[i].1, a) <==> i < |xs| && Normalize(es[i]).accepts(xs[i])
    {
      ListHasKey(a, i);
    }
    forall j | 0 <= j < |xs|
      ensures a[j].0 in KeysOf(c.value) <==> j < |es|
    {
      ListHasKey(c.value, j);
    }
    if |xs| < |es| {
      assert !KeyHolds(c.value[|xs|].0, c.value[|xs|].1, a);
    }
    if |xs| > |es| {
      assert a[|es|].0 !in KeysOf(c.value);
    }
  }
}
