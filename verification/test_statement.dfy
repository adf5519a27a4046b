/** `TestStatement`: a DBAL driver statement that records every bind call
    and answers every execution with the rows fixed at construction. */
module Statement {
  import opened Php

  /** `new ArrayResult($rows)`: a driver result over the given rows. */
  datatype ArrayResult = ArrayResult(rows: seq<Value>)

  /** `func_get_args()` of a call: the arguments actually passed, the
      trailing optional ones only when given, in order. */
  function PassedArgs(required: seq<Value>, optional: seq<Option<Value>>): (args: seq<Value>)
    ensures required <= args
    ensures |args| <= |required| + |optional|
    ensures (forall k :: 0 <= k < |optional| ==> optional[k].Some?) ==> |args| == |required| + |optional|
    ensures var n := |args| - |required|;
      && (forall k :: 0 <= k < n ==> optional[k] == Some(args[|required| + k]))
      && (n < |optional| ==> optional[n].None?)
    decreases |optional|
  {
    if optional == [] || optional[0].None? then required
    else PassedArgs(required + [optional[0].value], optional[1..])
  }

  class TestStatement {
    /** The arguments of each bind call, oldest first. */
    var bindings: seq<seq<Value>>
    const results: seq<Value>

    constructor (results: seq<Value>)
      ensures bindings == [] && this.results == results
    {
      bindings := [];
      this.results := results;
    }

    /** `bindValue($param, $value, $type)`: records the call. */
    method BindValue(param: Value, value: Value, paramType: Option<Value>)
      modifies this
      ensures bindings == old(bindings) + [PassedArgs([param, value], [paramType])]
    {
      bindings := bindings + [PassedArgs([param, value], [paramType])];
    }

    /** `bindParam($param, &$variable, $type, $length)`: records the call,
        with the variable's value at call time. */
    method BindParam(param: Value, variable: Value, paramType: Option<Value>, length: Option<Value>)
      modifies this
      ensures bindings == old(bindings) + [PassedArgs([param, variable], [paramType, length])]
    {
      bindings := bindings + [PassedArgs([param, variable], [paramType, length])];
    }

    /** `execute($params)`: the rows given at construction, whatever was
        bound or passed. */
    method Execute(params: Option<Value>) returns (r: ArrayResult)
      ensures r.rows == results
    {
      r := ArrayResult(results);
    }

    /** `reset()`: forgets every binding. */
    method Reset()
      modifies this
      ensures bindings == []
    {
      bindings := [];
    }
  }
}
