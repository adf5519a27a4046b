/** `WithConsecutive`: per-argument constraints for a mocked method called
    several times.  `from()` turns the argument lists of the expected calls
    into one constraint per argument position, each holding the queue of
    the values that position takes in call order; every evaluation takes
    the next value off the queue. */
module WithConsecutiveConstraint {
  import opened Php
  import opened PhpStrings
  import opened Matchers

  /** A place in a queue: an argument of the call, or the padding of a call
      with fewer arguments than the longest one. */
  datatype Slot = Missing | Given(arg: Expected<Value>)

  const TooFewCalls := "At least two consecutive arguments must be provided."

  /** `count(max($calls))`: PHP orders arrays by their size first, so the
      largest array is one of the longest. */
  function MaxLength(calls: seq<seq<Expected<Value>>>): (n: nat)
    ensures forall i :: 0 <= i < |calls| ==> |calls[i]| <= n
    ensures calls != [] ==> exists i :: 0 <= i < |calls| && |calls[i]| == n
    ensures calls == [] ==> n == 0
  {
    if calls == [] then 0
    else
      var m := MaxLength(calls[..|calls| - 1]);
      var last := |calls[|calls| - 1]|;
      if last > m then last else m
  }

  /** `array_pad($arguments, $count, …)`. */
  function Padded(call: seq<Expected<Value>>, n: nat): seq<Slot>
    requires |call| <= n
  {
    seq(n, k requires 0 <= k < n => if k < |call| then Given(call[k]) else Missing)
  }

  /** `array_map(null, ...$rows)`: the j-th tuple holds the j-th value of
      every row. */
  function Transpose(rows: seq<seq<Slot>>, n: nat): seq<seq<Slot>>
    requires forall i :: 0 <= i < |rows| ==> |rows[i]| == n
  {
    seq(n, j requires 0 <= j < n => seq(|rows|, i requires 0 <= i < |rows| => rows[i][j]))
  }

  /** The queues `from()` builds when some call has arguments: position j
      queues the j-th argument of every call, in call order, and a call
      too short to have one is padded. */
  function Queues(calls: seq<seq<Expected<Value>>>): (qs: seq<seq<Slot>>)
    ensures |qs| == MaxLength(calls)
    ensures forall j :: 0 <= j < |qs| ==> |qs[j]| == |calls|
    ensures forall j, i :: 0 <= j < |qs| && 0 <= i < |calls| ==>
      qs[j][i] == if j < |calls[i]| then Given(calls[i][j]) else Missing
  {
    var n := MaxLength(calls);
    Transpose(seq(|calls|, i requires 0 <= i < |calls| => Padded(calls[i], n)), n)
  }

  /** `self::class`: the string the source pads short calls with. */
  const ClassName := "Forlond\\TestTools\\PHPUnit\\Constraint\\WithConsecutive"

  /** `array_pad` as the source writes it: the padding is the class name
      string, in the same queue as the arguments. */
  function PaddedAsWritten(call: seq<Expected<Value>>, n: nat): (q: seq<Expected<Value>>)
    requires |call| <= n
    ensures |q| == n && q[..|call|] == call
  {
    seq(n, k requires 0 <= k < n => if k < |call| then call[k] else Raw(Str(ClassName), ClassName))
  }

  /** `self::class === $argument`: how the source tells padding from an
      argument. */
  predicate ReadsAsMissing(a: Expected<Value>)
  {
    a.Raw? && a.value == Str(ClassName)
  }

  /** As written, an argument that is the class name string itself cannot
      be told from the padding: the call below does have a first argument,
      and the constraint for that position reports it missing. */
  lemma SentinelCollision()
    ensures var call := [Raw(Str(ClassName), ClassName)];
      && 0 < |call|
      && ReadsAsMissing(PaddedAsWritten(call, 1)[0])
  {
  }

  /** With `Slot`, a queued place reads as missing exactly when the call
      had no argument there. */
  lemma PaddedMissingIff(call: seq<Expected<Value>>, n: nat, k: nat)
    requires |call| <= n && k < n
    ensures Padded(call, n)[k].Missing? <==> k >= |call|
    ensures k < |call| ==> Padded(call, n)[k] == Given(call[k])
  {
  }

  /** The text `toString()` gives after `invocation` evaluations. */
  function InvocationText(invocation: nat): string
  {
    "Invocation #" + NatToString(invocation) + " failed."
  }

  /** A queued value becomes a constraint: a plain value through `IsEqual`. */
  function AsConstraint(e: Expected<Value>, equals: (Value, Value) -> bool): (m: Matcher<Value>)
    ensures e.Is? ==> m == e.matcher
    ensures e.Raw? ==> forall x :: m.accepts(x) == equals(e.value, x)
  {
    match e
    case Raw(v, shown) => EqualTo(v, shown, equals)
    case Is(m) => m
  }

  function MissingText(invocation: nat, description: string): string
  {
    InvocationText(invocation) + "\n" + description + "\nMethod expected parameter but none was provided."
  }

  /** The queued value's own `evaluate($other, $description)`, in
      throwing mode: `IsEqual`'s for a plain value, the base one for a
      given constraint. */
  function EvaluateArgument(arg: Expected<Value>, other: Value, description: string,
                            equals: (Value, Value) -> bool): Result<Option<bool>>
  {
    var m := AsConstraint(arg, equals);
    if arg.Raw? then EvaluateEqual(m, other, description, false) else Matchers.Evaluate(m, other, description, false)
  }

  /** What the `invocation`-th evaluation returns, `next` being the front
      of the queue (`Missing` for an empty queue).  The inner check runs in
      throwing mode, so its pass result comes back whatever `returnResult`
      says: true from `IsEqual` for a plain value, null from a given
      constraint's base `evaluate`.  A missing argument throws whatever
      `returnResult` says. */
  function Step(next: Slot, invocation: nat, other: Value, description: string, returnResult: bool,
                equals: (Value, Value) -> bool): (r: Result<Option<bool>>)
    ensures next.Missing? ==> r == Throws(ExpectationFailed(Failure(MissingText(invocation, description), None)))
    ensures next.Given? ==>
      var m := AsConstraint(next.arg, equals);
      && (m.accepts(other) ==> r == Ok(if next.arg.Raw? then Some(true) else None))
      && (!m.accepts(other) && returnResult ==> r == Ok(Some(false)))
      && (!m.accepts(other) && !returnResult ==>
            r == Throws(ExpectationFailed(Failure(InvocationText(invocation) + "\n" + Rejection(m, description), None))))
  {
    if next.Missing? then Throws(ExpectationFailed(Failure(MissingText(invocation, description), None)))
    else
      var inner := EvaluateArgument(next.arg, other, description, equals);
      if inner.Throws? && inner.error.ExpectationFailed? then
        if returnResult then Ok(Some(false))
        else Throws(ExpectationFailed(Failure(InvocationText(invocation) + "\n" + inner.error.failure.text, None)))
      else inner
  }

  /** The front of a queue; an empty queue has no argument to give. */
  function Front(queue: seq<Slot>): Slot
  {
    if queue == [] then Missing else queue[0]
  }

  /** `array_shift`. */
  function Shift(queue: seq<Slot>): seq<Slot>
  {
    if queue == [] then [] else queue[1..]
  }

  class WithConsecutive {
    var invocation: nat
    var arguments: seq<Slot>

    constructor (arguments: seq<Slot>)
      ensures invocation == 0 && this.arguments == arguments
    {
      invocation := 0;
      this.arguments := arguments;
    }

    /** `toString()`. */
    function ToString(): string
      reads this
    {
      InvocationText(invocation)
    }

    /** `evaluate($other, $description, $returnResult)`: the counter goes
        up and the queue loses its front on every call, pass or fail. */
    method Evaluate(other: Value, description: string, returnResult: bool, equals: (Value, Value) -> bool)
      returns (r: Result<Option<bool>>)
      modifies this
      ensures invocation == old(invocation) + 1
      ensures arguments == Shift(old(arguments))
      ensures r == Step(Front(old(arguments)), invocation, other, description, returnResult, equals)
    {
      invocation := invocation + 1;
      if arguments == [] {
        return Throws(ExpectationFailed(Failure(MissingText(invocation, description), None)));
      }
      var argument := arguments[0];
      arguments := arguments[1..];
      if argument.Missing? {
        return Throws(ExpectationFailed(Failure(MissingText(invocation, description), None)));
      }
      var inner := EvaluateArgument(argument.arg, other, description, equals);
      if inner.Throws? && inner.error.ExpectationFailed? {
        if returnResult {
          return Ok(Some(false));
        }
        return Throws(ExpectationFailed(Failure(ToString() + "\n" + inner.error.failure.text, None)));
      }
      return inner;
    }
  }

  /** `WithConsecutive::from(...$calls)`.  When no call has an argument the
      one constraint built is returned once per call: the same object. */
  method From(calls: seq<seq<Expected<Value>>>) returns (r: Result<seq<WithConsecutive>>)
    ensures r.Throws? <==> |calls| < 2
    ensures r.Throws? ==> r.error == InvalidArgument(TooFewCalls)
    ensures r.Ok? && MaxLength(calls) == 0 ==>
      && |r.value| == |calls|
      && (forall i :: 0 <= i < |calls| ==> r.value[i] == r.value[0])
      && fresh(r.value[0]) && r.value[0].arguments == [] && r.value[0].invocation == 0
    ensures r.Ok? && MaxLength(calls) > 0 ==>
      && |r.value| == MaxLength(calls)
      && (forall j :: 0 <= j < |r.value| ==>
            fresh(r.value[j]) && r.value[j].arguments == Queues(calls)[j] && r.value[j].invocation == 0)
      && (forall j, k :: 0 <= j < k < |r.value| ==> r.value[j] != r.value[k])
  {
    if |calls| < 2 {
      return Throws(InvalidArgument(TooFewCalls));
    }
    var n := MaxLength(calls);
    if n == 0 {
      var shared := new WithConsecutive([]);
      return Ok(seq(|calls|, i => shared));
    }
    var qs := Queues(calls);
    var built: seq<WithConsecutive> := [];
    for j := 0 to n
      invariant |built| == j
      invariant forall a :: 0 <= a < j ==> fresh(built[a]) && built[a].arguments == qs[a] && built[a].invocation == 0
      invariant forall a, b :: 0 <= a < b < j ==> built[a] != built[b]
    {
      var w := new WithConsecutive(qs[j]);
      built := built + [w];
    }
    return Ok(built);
  }

  /** What each of `n` consecutive evaluations sees: the front of the
      queue and the invocation number, each evaluation shifting the queue
      and counting itself. */
  function Seen(queue: seq<Slot>, invocation: nat, n: nat): (cs: seq<(Slot, nat)>)
    ensures |cs| == n
    decreases n
  {
    if n == 0 then []
    else [(Front(queue), invocation + 1)] + Seen(Shift(queue), invocation + 1, n - 1)
  }

  /** The k-th evaluation sees the k-th queued slot, or `Missing` once the
      queue is used up, as invocation k + 1 after the start. */
  lemma {:induction false} SeenFollowsQueue(queue: seq<Slot>, invocation: nat, n: nat, k: nat)
    requires k < n
    decreases k
    ensures Seen(queue, invocation, n)[k] == (if k < |queue| then queue[k] else Missing, invocation + k + 1)
  {
    if k > 0 {
      SeenFollowsQueue(Shift(queue), invocation + 1, n - 1, k - 1);
      if k < |queue| {
        assert Shift(queue)[k - 1] == queue[k];
      }
    }
  }

  /** The outcomes of consecutive evaluations of one constraint against
      `others`, one outcome per evaluation. */
  function Outcomes(queue: seq<Slot>, invocation: nat, others: seq<Value>, description: string, returnResult: bool,
                    equals: (Value, Value) -> bool): (rs: seq<Result<Option<bool>>>)
    ensures |rs| == |others|
  {
    var seen := Seen(queue, invocation, |others|);
    seq(|others|, k requires 0 <= k < |others| => Step(seen[k].0, seen[k].1, others[k], description, returnResult, equals))
  }

  /** The k-th evaluation checks the k-th queued value and reports the
      invocation number k + 1; past the queue every evaluation throws that
      the argument is missing. */
  lemma OutcomesFollowQueue(queue: seq<Slot>, invocation: nat, others: seq<Value>, description: string,
                            returnResult: bool, equals: (Value, Value) -> bool, k: nat)
    requires k < |others|
    ensures var rs := Outcomes(queue, invocation, others, description, returnResult, equals);
      && (k < |queue| ==> rs[k] == Step(queue[k], invocation + k + 1, others[k], description, returnResult, equals))
      && (k >= |queue| ==> rs[k] == Step(Missing, invocation + k + 1, others[k], description, returnResult, equals))
  {
    SeenFollowsQueue(queue, invocation, |others|, k);
  }

  /** Put together: the constraint `from()` builds for position j sees,
      at the k-th call, the j-th argument of the k-th expected call as
      invocation k + 1, and a missing argument when that call had fewer
      arguments. */
  lemma CallsCheckedInOrder(calls: seq<seq<Expected<Value>>>, j: nat, n: nat, k: nat)
    requires j < MaxLength(calls) && k < n && k < |calls|
    ensures j < |calls[k]| ==> Seen(Queues(calls)[j], 0, n)[k] == (Given(calls[k][j]), k + 1)
    ensures j >= |calls[k]| ==> Seen(Queues(calls)[j], 0, n)[k] == (Missing, k + 1)
  {
    var qs := Queues(calls);
    var q := qs[j];
    assert |q| == |calls|;
    assert q[k] == if j < |calls[k]| then Given(calls[k][j]) else Missing;
    SeenFollowsQueue(q, 0, n, k);
  }
}
