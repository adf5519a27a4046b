/** `TestConstraintViolationList`: a collection table of the violations a
    validator is expected to report, matched against a violation list with
    the collection rule (unmatched expectations before leftovers). */
module ViolationList {
  import opened Php
  import opened PhpArrays
  import opened Matchers
  import opened Expectations
  import opened Grouping
  import opened FirstFit
  import opened TestGroups
  import opened TestCollections

  /** A `ConstraintViolationInterface` as its getters show it; the
      validator constraint behind it is an object, or none. */
  datatype Violation = Violation(
    message: string,
    messageTemplate: string,
    parameters: PhpArray<Value>,
    plural: Option<int>,
    root: Value,
    propertyPath: string,
    invalidValue: Value,
    code: Option<string>,
    constraint: Option<Object>)

  function OptionalInt(n: Option<int>): (v: Value)
    ensures n.Some? ==> v == Int(n.value)
    ensures n.None? ==> v == Null
  {
    if n.Some? then Int(n.value) else Null
  }

  function MessageField(message: Expected<Value>): Field<Violation>
  {
    Field("message", message, (v: Violation) => Str(v.message))
  }

  function PathField(path: Expected<Value>): Field<Violation>
  {
    Field("path", path, (v: Violation) => Str(v.propertyPath))
  }

  function ParametersField(parameters: Expected<Value>): Field<Violation>
  {
    Field("parameters", parameters, (v: Violation) => Arr(v.parameters))
  }

  function MessageTemplateField(template: Expected<Value>): Field<Violation>
  {
    Field("messageTemplate", template, (v: Violation) => Str(v.messageTemplate))
  }

  function InvalidValueField(invalidValue: Expected<Value>): Field<Violation>
  {
    Field("invalidValue", invalidValue, (v: Violation) => v.invalidValue)
  }

  function PluralField(plural: Expected<Value>): Field<Violation>
  {
    Field("plural", plural, (v: Violation) => OptionalInt(v.plural))
  }

  function ConstraintValue(c: Option<Object>): (v: Value)
    ensures c.Some? ==> v == Obj(c.value)
    ensures c.None? ==> v == Null
  {
    if c.Some? then Obj(c.value) else Null
  }

  function ConstraintField(constraint: Expected<Value>): Field<Violation>
  {
    Field("constraint", constraint, (v: Violation) => ConstraintValue(v.constraint))
  }

  function CodeField(code: Expected<Value>): Field<Violation>
  {
    Field("code", code, (v: Violation) => NullableString(v.code))
  }

  function RootField(root: Expected<Value>): Field<Violation>
  {
    Field("root", root, (v: Violation) => v.root)
  }

  /** `constraint($c)` with a validator constraint object accepts exactly
      the violations raised by that very object. */
  lemma ConstraintFieldAccepts(index: nat, c: Object, shown: string, v: Violation)
    ensures var f := ConstraintField(Raw(Obj(c), shown));
      (FieldEntry(index, f.name, f.expected, f.actual).constraint.accepts(v) <==> v.constraint == Some(c))
  {
    var f := ConstraintField(Raw(Obj(c), shown));
    FieldEntryAccepts(index, f.name, f.expected, f.actual, v);
  }

  /** `code($code)` with a plain string accepts exactly the violations with
      that code, never one without a code. */
  lemma CodeFieldAccepts(index: nat, code: string, shown: string, v: Violation)
    ensures var f := CodeField(Raw(Str(code), shown));
      (FieldEntry(index, f.name, f.expected, f.actual).constraint.accepts(v) <==> v.code == Some(code))
  {
    var f := CodeField(Raw(Str(code), shown));
    FieldEntryAccepts(index, f.name, f.expected, f.actual, v);
  }

  class TestConstraintViolationList {
    /** The list, in iteration order. */
    const list: seq<Violation>
    const table: CollectionTable<Violation>

    ghost predicate Valid()
      reads this, table
    {
      table.Valid()
    }

    constructor (list: seq<Violation>)
      ensures Valid() && fresh(table)
      ensures this.list == list && table.entries == [] && table.current == 0
    {
      this.list := list;
      table := new CollectionTable();
    }

    /** `expect($message)`: a new group. */
    method Expect(message: Expected<Value>)
      requires Valid()
      requires message.Raw? ==> message.value.Str?
      modifies table
      ensures Valid()
      ensures table.current == old(table.current) + 1
      ensures table.entries == old(table.entries) + FieldEntries(table.current, [MessageField(message)])
      ensures forall n :: table.DeclaredInCurrent(n) <==> n == "message"
    {
      table.Open([MessageField(message)]);
      assert Names([MessageField(message)]) == ["message"];
    }

    method Path(path: Expected<Value>) returns (r: Result<()>)
      requires Valid()
      requires path.Raw? ==> path.value.Str?
      modifies table
      ensures Valid()
      ensures table.SetOutcome(PathField(path), r)
    {
      r := table.SetField(PathField(path));
    }

    method Parameters(parameters: Expected<Value>) returns (r: Result<()>)
      requires Valid()
      requires parameters.Raw? ==> parameters.value.Arr?
      modifies table
      ensures Valid()
      ensures table.SetOutcome(ParametersField(parameters), r)
    {
      r := table.SetField(ParametersField(parameters));
    }

    method MessageTemplate(template: Expected<Value>) returns (r: Result<()>)
      requires Valid()
      requires template.Raw? ==> template.value.Str?
      modifies table
      ensures Valid()
      ensures table.SetOutcome(MessageTemplateField(template), r)
    {
      r := table.SetField(MessageTemplateField(template));
    }

    method InvalidValue(invalidValue: Expected<Value>) returns (r: Result<()>)
      requires Valid()
      modifies table
      ensures Valid()
      ensures table.SetOutcome(InvalidValueField(invalidValue), r)
    {
      r := table.SetField(InvalidValueField(invalidValue));
    }

    method Plural(plural: Expected<Value>) returns (r: Result<()>)
      requires Valid()
      requires plural.Raw? ==> plural.value.Int?
      modifies table
      ensures Valid()
      ensures table.SetOutcome(PluralField(plural), r)
    {
      r := table.SetField(PluralField(plural));
    }

    method Constraint(constraint: Expected<Value>) returns (r: Result<()>)
      requires Valid()
      requires constraint.Raw? ==> constraint.value.Obj?
      modifies table
      ensures Valid()
      ensures table.SetOutcome(ConstraintField(constraint), r)
    {
      r := table.SetField(ConstraintField(constraint));
    }

    method Code(code: Expected<Value>) returns (r: Result<()>)
      requires Valid()
      requires code.Raw? ==> code.value.Str?
      modifies table
      ensures Valid()
      ensures table.SetOutcome(CodeField(code), r)
    {
      r := table.SetField(CodeField(code));
    }

    method Root(root: Expected<Value>) returns (r: Result<()>)
      requires Valid()
      modifies table
      ensures Valid()
      ensures table.SetOutcome(RootField(root), r)
    {
      r := table.SetField(RootField(root));
    }

    /** `assert($strict)` over `getCollection()`, the violations in order. */
    method Assert(strict: bool) returns (outcome: CollectionOutcome)
      ensures outcome == Outcome(Match(Members(GroupBy(table.entries)), list), strict)
    {
      outcome := table.Assert(list, strict);
    }
  }
}
