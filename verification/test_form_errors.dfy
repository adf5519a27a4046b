/** `TestFormErrors`: a group table (`GROUP_NAME` "form errors") of the
    errors a form is expected to carry, matched against the errors the
    form's error iterator yields. */
module FormErrors {
  import opened Php
  import opened PhpArrays
  import opened Matchers
  import opened Expectations
  import opened Grouping
  import opened FirstFit
  import opened TestGroups

  /** A `FormError` as its getters show it. */
  datatype FormError = FormError(
    message: string,
    messageTemplate: string,
    parameters: PhpArray<Value>,
    pluralization: Option<int>,
    cause: Value)

  const GroupName := "form errors"

  function MessageField(message: Expected<Value>): Field<FormError>
  {
    Field("message", message, (e: FormError) => Str(e.message))
  }

  function MessageTemplateField(template: Expected<Value>): Field<FormError>
  {
    Field("messageTemplate", template, (e: FormError) => Str(e.messageTemplate))
  }

  function ParametersField(parameters: Expected<Value>): Field<FormError>
  {
    Field("parameters", parameters, (e: FormError) => Arr(e.parameters))
  }

  /** `getMessagePluralization()`: null when the error has none. */
  function PluralizationField(pluralization: Expected<Value>): Field<FormError>
  {
    Field("pluralization", pluralization,
      (e: FormError) => if e.pluralization.Some? then Int(e.pluralization.value) else Null)
  }

  function CauseField(cause: Expected<Value>): Field<FormError>
  {
    Field("cause", cause, (e: FormError) => e.cause)
  }

  /** `pluralization($n)` with a plain integer accepts exactly the errors
      pluralized by that number, never one without a pluralization. */
  lemma PluralizationFieldAccepts(index: nat, n: int, shown: string, e: FormError)
    ensures var f := PluralizationField(Raw(Int(n), shown));
      (FieldEntry(index, f.name, f.expected, f.actual).constraint.accepts(e) <==> e.pluralization == Some(n))
  {
    var f := PluralizationField(Raw(Int(n), shown));
    FieldEntryAccepts(index, f.name, f.expected, f.actual, e);
  }

  class TestFormErrors {
    /** The errors the iterator yields, in iteration order. */
    const errors: seq<FormError>
    const table: GroupTable<FormError>

    ghost predicate Valid()
      reads this, table
    {
      table.Valid() && table.groupName == GroupName
    }

    constructor (errors: seq<FormError>)
      ensures Valid() && fresh(table)
      ensures this.errors == errors && table.entries == [] && table.current == 0
    {
      this.errors := errors;
      table := new GroupTable(GroupName);
    }

    /** `expect($message)`: a new group. */
    method Expect(message: Expected<Value>)
      requires Valid()
      requires message.Raw? ==> message.value.Str?
      modifies table
      ensures Valid()
      ensures table.current == old(table.current) + 1
      ensures table.entries == old(table.entries) + FieldEntries(table.current, [MessageField(message)])
      ensures forall n :: table.DeclaredInCurrent(n) <==> n == "message"
    {
      table.Open([MessageField(message)]);
      assert Names([MessageField(message)]) == ["message"];
    }

    method MessageTemplate(template: Expected<Value>) returns (r: Result<()>)
      requires Valid()
      requires template.Raw? ==> template.value.Str?
      modifies table
      ensures Valid()
      ensures table.SetOutcome(MessageTemplateField(template), r)
    {
      r := table.SetField(MessageTemplateField(template));
    }

    method Parameters(parameters: Expected<Value>) returns (r: Result<()>)
      requires Valid()
      requires parameters.Raw? ==> parameters.value.Arr?
      modifies table
      ensures Valid()
      ensures table.SetOutcome(ParametersField(parameters), r)
    {
      r := table.SetField(ParametersField(parameters));
    }

    method Pluralization(pluralization: Expected<Value>) returns (r: Result<()>)
      requires Valid()
      requires pluralization.Raw? ==> pluralization.value.Int?
      modifies table
      ensures Valid()
      ensures table.SetOutcome(PluralizationField(pluralization), r)
    {
      r := table.SetField(PluralizationField(pluralization));
    }

    method Cause(cause: Expected<Value>) returns (r: Result<()>)
      requires Valid()
      modifies table
      ensures Valid()
      ensures table.SetOutcome(CauseField(cause), r)
    {
      r := table.SetField(CauseField(cause));
    }

    /** `assert($strict)` over `getValue()`, the errors in iteration order. */
    method Assert(strict: bool) returns (failures: seq<GroupFailure>)
      requires Valid()
      ensures failures == Report(GroupName, Match(Members(GroupBy(table.entries)), errors), strict)
    {
      failures := table.Assert(errors, strict);
    }
  }
}
