/** PHP values, exceptions and results shared by the whole model.

    PHP's `mixed` becomes `Value`; floating point numbers and resources are
    not modelled.  An object is known by its handle (`spl_object_id`), its
    class name and, when it implements `Stringable`, the string it converts
    to.  A PHP exception that the library throws becomes a `Throws` result. */
module Php {

  datatype Option<+T> = None | Some(value: T)

  /** Array keys after PHP's key normalisation. */
  datatype Key = IntKey(i: int) | StrKey(s: string)

  datatype Object = Object(handle: nat, className: string, text: Option<string>)

  datatype Value =
    | Null
    | Bool(b: bool)
    | Int(i: int)
    | Str(s: string)
    | Arr(entries: seq<(Key, Value)>)
    | Obj(obj: Object)

  /** An `ExpectationFailedException`: its message and, when the
      constraint produced one, the rendered comparison (expected/actual diff). */
  datatype Failure = Failure(text: string, comparison: Option<string>)

  /** The exceptions raised by the library, by class. */
  datatype Exception =
    | ExpectationFailed(failure: Failure) // PHPUnit\Framework\ExpectationFailedException
    | TestFailed(message: string)       // Forlond\TestTools\Exception\TestFailedException
    | Runtime(message: string)          // \RuntimeException
    | Logic(message: string)            // \LogicException
    | InvalidArgument(message: string)  // \InvalidArgumentException
    | BadMethodCall(message: string)    // \BadMethodCallException
    | Error(message: string)            // \Error, raised by the engine

  datatype Result<+R> = Ok(value: R) | Throws(error: Exception)

  /** A `?string` as a PHP value. */
  function NullableString(s: Option<string>): Value
  {
    if s.Some? then Str(s.value) else Null
  }

  /** PHP's conversion of a value to bool (`if ($v)`). */
  predicate Truthy(v: Value)
  {
    match v
    case Null => false
    case Bool(b) => b
    case Int(i) => i != 0
    case Str(s) => s != "" && s != "0"
    case Arr(entries) => entries != []
    case Obj(_) => true
  }

  /** PHP's `empty($s)` on a string: the empty string and "0" are empty. */
  predicate EmptyString(s: string)
    ensures EmptyString(s) <==> !Truthy(Str(s))
  {
    s == "" || s == "0"
  }

  /** `is_string($v) || $v instanceof \Stringable`: the values `(string)` accepts here. */
  predicate IsStringLike(v: Value)
  {
    v.Str? || (v.Obj? && v.obj.text.Some?)
  }

  /** `(string) $v` for a string or a Stringable object. */
  function AsString(v: Value): (s: string)
    requires IsStringLike(v)
    ensures v.Str? ==> s == v.s
    ensures v.Obj? ==> s == v.obj.text.value
  {
    if v.Str? then v.s else v.obj.text.value
  }
}
