/** `TraversableContainsCallback`: a `TraversableContains` whose search
    asks a closure, given the expected value, an element and its key,
    whether the element is the one looked for. */
module TraversableContainsCallbackConstraint {
  import opened Php
  import opened PhpArrays

  datatype TraversableContainsCallback = TraversableContainsCallback(value: Value, callback: (Value, Value, Key) -> Value)

  const NotBool := "Closure must return a bool value."

  /** The closure's answer for the element at position `i`. */
  function Answer(c: TraversableContainsCallback, other: PhpArray<Value>, i: nat): Value
    requires i < |other|
  {
    c.callback(c.value, other[i].1, other[i].0)
  }

  /** Every element before position `i` was answered `false`. */
  predicate RefusedBefore(c: TraversableContainsCallback, other: PhpArray<Value>, i: nat)
    requires i <= |other|
  {
    forall j :: 0 <= j < i ==> Answer(c, other, j) == Bool(false)
  }

  /** `matches($other)` from position `i` on: the elements are visited in
      order, the first `true` ends the search, and an answer that is not
      a bool is an error. */
  function MatchesFrom(c: TraversableContainsCallback, other: PhpArray<Value>, i: nat): (r: Result<bool>)
    requires i <= |other|
    decreases |other| - i
    ensures r == Ok(true) <==>
      exists p :: i <= p < |other| && Answer(c, other, p) == Bool(true)
        && forall j :: i <= j < p ==> Answer(c, other, j) == Bool(false)
    ensures r == Ok(false) <==> forall j :: i <= j < |other| ==> Answer(c, other, j) == Bool(false)
    ensures r.Throws? ==> r.error == Runtime(NotBool)
    ensures r.Throws? ==>
      exists p :: i <= p < |other| && !Answer(c, other, p).Bool?
        && forall j :: i <= j < p ==> Answer(c, other, j) == Bool(false)
  {
    if i == |other| then Ok(false)
    else
      var answer := Answer(c, other, i);
      if !answer.Bool? then Throws(Runtime(NotBool))
      else if answer.b then Ok(true)
      else MatchesFrom(c, other, i + 1)
  }

  /** The pairs `foreach ($other as $index => $element)` walks: an
      array's own pairs; for an object, what `pairs` gives (the pairs a
      `Traversable` yields, or the accessible properties of any other
      object); for anything else none, after the engine's warning. */
  function Walked(other: Value, pairs: Object -> PhpArray<Value>): PhpArray<Value>
  {
    match other
    case Arr(a) => a
    case Obj(o) => pairs(o)
    case _ => []
  }

  /** `matches($other)`: the search over what `foreach` walks; a value
      that cannot be iterated, or an empty array, contains nothing. */
  function Matches(c: TraversableContainsCallback, other: Value, pairs: Object -> PhpArray<Value>): (r: Result<bool>)
    ensures !other.Arr? && !other.Obj? ==> r == Ok(false)
    ensures other == Arr([]) ==> r == Ok(false)
    ensures var w := Walked(other, pairs);
      r == Ok(true) <==>
        exists p :: 0 <= p < |w| && Answer(c, w, p) == Bool(true) && forall j :: 0 <= j < p ==> Answer(c, w, j) == Bool(false)
  {
    MatchesFrom(c, Walked(other, pairs), 0)
  }

  /** A closure that always answers with a bool makes `matches` the plain
      existential search. */
  lemma {:induction false} BoolCallbackIsExists(c: TraversableContainsCallback, other: PhpArray<Value>, i: nat)
    requires i <= |other|
    requires forall j :: i <= j < |other| ==> Answer(c, other, j).Bool?
    decreases |other| - i
    ensures MatchesFrom(c, other, i) == Ok(exists j :: i <= j < |other| && Answer(c, other, j) == Bool(true))
  {
    if i < |other| {
      BoolCallbackIsExists(c, other, i + 1);
    }
  }

  /** Elements after the first one answered `true` are never looked at:
      changing them does not change the result. */
  lemma {:induction false} StopsAtFirstTrue(c: TraversableContainsCallback, a: PhpArray<Value>, b: PhpArray<Value>, p: nat)
    requires p < |a| && p < |b| && a[..p + 1] == b[..p + 1]
    requires Answer(c, a, p) == Bool(true)
    ensures MatchesFrom(c, a, 0) == MatchesFrom(c, b, 0)
  {
    assert forall j :: 0 <= j <= p ==> a[j] == b[j] by {
      forall j | 0 <= j <= p
        ensures a[j] == b[j]
      {
        assert a[..p + 1][j] == b[..p + 1][j];
      }
    }
    StopsAtFirstTrueFrom(c, a, b, p, 0);
  }

  lemma {:induction false} StopsAtFirstTrueFrom(c: TraversableContainsCallback, a: PhpArray<Value>, b: PhpArray<Value>, p: nat, i: nat)
    requires i <= p < |a| && p < |b|
    requires forall j :: 0 <= j <= p ==> a[j] == b[j]
    requires Answer(c, a, p) == Bool(true)
    decreases p - i
    ensures MatchesFrom(c, a, i) == MatchesFrom(c, b, i)
  {
    assert Answer(c, a, i) == Answer(c, b, i);
    if i < p {
      StopsAtFirstTrueFrom(c, a, b, p, i + 1);
    }
  }
}
