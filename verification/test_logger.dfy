/** `TestLogger`: a PSR-3 logger that records every log call, and a group
    table (`GROUP_NAME` "logger") of the records expected. */
module Logger {
  import opened Php
  import opened PhpArrays
  import opened Matchers
  import opened TestConstraints
  import opened TestConstraintGroups
  import opened Expectations
  import opened Grouping
  import opened FirstFit
  import opened TestGroups

  /** `['level' => …, 'message' => …, 'context' => …]`. */
  datatype LogRecord = LogRecord(level: Value, message: string, context: PhpArray<Value>)

  const GroupName := "logger"

  const InvalidMessage := "Invalid message value. Use string or Stringable instance."

  /** The fields `expect` declares: level and message, and the context
      only when one is given.  A plain `Stringable` message is compared by
      its string, the form the record keeps. */
  function ExpectFields(level: string, message: Expected<Value>, context: Option<Expected<Value>>): (fs: seq<Field<LogRecord>>)
    ensures Names(fs) == ["level", "message"] + (if context.Some? then ["context"] else [])
    ensures DistinctNames(fs)
    ensures fs[0].expected == PlainString(level) && fs[1].expected == AsStringExpected(message)
    ensures context.Some? ==> fs[2].expected == context.value
  {
    [Field("level", PlainString(level), (r: LogRecord) => r.level),
     Field("message", AsStringExpected(message), (r: LogRecord) => Str(r.message))]
      + (if context.Some? then [Field("context", context.value, (r: LogRecord) => Arr(r.context))] else [])
  }

  /** The message field accepts exactly the records whose message is the
      expected string, a `Stringable` expectation standing for its string. */
  lemma MessageFieldAccepts(index: nat, level: string, message: Expected<Value>, context: Option<Expected<Value>>, r: LogRecord)
    requires message.Raw? && IsStringLike(message.value)
    ensures FieldEntries(index, ExpectFields(level, message, context))[1].constraint.accepts(r)
        <==> r.message == AsString(message.value)
  {
    var f := ExpectFields(level, message, context)[1];
    FieldEntryAccepts(index, f.name, f.expected, f.actual, r);
  }

  class TestLogger {
    const table: GroupTable<LogRecord>
    var logs: seq<LogRecord>

    ghost predicate Valid()
      reads this, table
    {
      table.Valid() && table.groupName == GroupName
    }

    constructor ()
      ensures Valid() && fresh(table)
      ensures logs == [] && table.entries == [] && table.current == 0
    {
      table := new GroupTable(GroupName);
      logs := [];
    }

    /** `log($level, $message, $context)`: one record at the end, the
        message cast to string; any other message is refused. */
    method Log(level: Value, message: Value, context: PhpArray<Value>) returns (r: Result<()>)
      modifies this
      ensures r.Throws? <==> !IsStringLike(message)
      ensures r.Throws? ==> r.error == InvalidArgument(InvalidMessage) && logs == old(logs)
      ensures r.Ok? ==> logs == old(logs) + [LogRecord(level, AsString(message), context)]
    {
      if !IsStringLike(message) {
        return Throws(InvalidArgument(InvalidMessage));
      }
      logs := logs + [LogRecord(level, AsString(message), context)];
      return Ok(());
    }

    /** `expect($level, $message, $context)`: a new group. */
    method Expect(level: string, message: Expected<Value>, context: Option<Expected<Value>>)
      requires Valid()
      requires message.Raw? ==> IsStringLike(message.value)
      modifies table
      ensures Valid()
      ensures table.current == old(table.current) + 1
      ensures table.entries == old(table.entries) + FieldEntries(table.current, ExpectFields(level, message, context))
    {
      table.Open(ExpectFields(level, message, context));
    }

    /** `reset()`: the records go, the expectations stay. */
    method Reset()
      modifies this
      ensures logs == []
      ensures table.entries == old(table.entries) && table.current == old(table.current)
    {
      logs := [];
    }

    /** `assert($strict)` over `getValue()`, the records in call order. */
    method Assert(strict: bool) returns (failures: seq<GroupFailure>)
      requires Valid()
      ensures failures == Report(GroupName, Match(Members(GroupBy(table.entries)), logs), strict)
    {
      failures := table.Assert(logs, strict);
    }
  }

  /** The record and the expectation of the simple logger scenario. */
  const SimpleContext: PhpArray<Value> := [(StrKey("foobar"), Bool(true))]
  const SimpleRecord := LogRecord(Str("info"), "message", SimpleContext)

  function SimpleFields(): seq<Field<LogRecord>>
  {
    ExpectFields("info", PlainString("message"), Some(Raw(Arr(SimpleContext), "['foobar' => true]")))
  }

  /** The expectation of the simple scenario accepts its record. */
  lemma SimpleExpectationHolds()
    ensures Report(GroupName, Match(Members(GroupBy(FieldEntries(1, SimpleFields()))), [SimpleRecord]), true) == []
  {
    var fields := SimpleFields();
    assert |fields| == 3;
    assert Normalize(fields[0].expected).accepts(fields[0].actual(SimpleRecord));
    assert Normalize(fields[1].expected).accepts(fields[1].actual(SimpleRecord));
    assert Normalize(fields[2].expected).accepts(fields[2].actual(SimpleRecord));
    ExpectedRecordAccepted(fields, SimpleRecord);
  }

  /** A new logger holding one `info` record, expected with the same
      level, message and context, asserts without failure. */
  method SimpleAssert() returns (failures: seq<GroupFailure>)
    ensures failures == []
  {
    var logger := new TestLogger();
    var _ := logger.Log(Str("info"), Str("message"), SimpleContext);
    logger.Expect("info", PlainString("message"), Some(Raw(Arr(SimpleContext), "['foobar' => true]")));
    assert logger.logs == [SimpleRecord];
    assert logger.table.entries == FieldEntries(1, SimpleFields());
    failures := logger.Assert(true);
    SimpleExpectationHolds();
  }

  /** The group of one `expect` accepts a record all its fields accept. */
  lemma ExpectedRecordAccepted(fields: seq<Field<LogRecord>>, record: LogRecord)
    requires fields != []
    requires forall i :: 0 <= i < |fields| ==> Normalize(fields[i].expected).accepts(fields[i].actual(record))
    ensures Report(GroupName, Match(Members(GroupBy(FieldEntries(1, fields))), [record]), true) == []
  {
    OneOpenIsOneGroup(fields);
    var cs := Constraints(FieldEntries(1, fields));
    forall i | 0 <= i < |cs|
      ensures cs[i].accepts(record)
    {
      FieldEntryAccepts(1, fields[i].name, fields[i].expected, fields[i].actual, record);
    }
    assert Members(GroupBy(FieldEntries(1, fields))) == [cs];
    OneGroupOneElement(GroupName, cs, record, true);
  }
}
