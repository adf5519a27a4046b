/** `TestEventDispatcher`: an event dispatcher without listeners that
    records every dispatched event, and a group table ("event dispatcher")
    of the events expected. */
module EventDispatcher {
  import opened Php
  import opened Matchers
  import opened Expectations
  import opened Grouping
  import opened FirstFit
  import opened TestGroups

  /** `['event' => $event, 'name' => …]`. */
  datatype Dispatched = Dispatched(event: Object, name: string)

  const GroupName := "event dispatcher"

  const Unmodifiable := "Unmodifiable event dispatchers must not be modified."

  /** A class name stands for an instance-of check; a constraint is kept. */
  function EventExpected(event: Expected<Value>, isA: (string, string) -> bool): (e: Expected<Value>)
    requires event.Raw? ==> event.value.Str?
    ensures event.Is? ==> e == event
    ensures event.Raw? ==> e == Is(InstanceOf(event.value.s, isA))
  {
    if event.Raw? then Is(InstanceOf(event.value.s, isA)) else event
  }

  /** The fields `expect` declares: the event, and the name only when one
      is given. */
  function ExpectFields(event: Expected<Value>, name: Option<Expected<Value>>, isA: (string, string) -> bool)
    : (fs: seq<Field<Dispatched>>)
    requires event.Raw? ==> event.value.Str?
    ensures Names(fs) == ["event"] + (if name.Some? then ["name"] else [])
    ensures DistinctNames(fs)
    ensures fs[0].expected == EventExpected(event, isA)
    ensures name.Some? ==> fs[1].expected == name.value
  {
    [Field("event", EventExpected(event, isA), (d: Dispatched) => Obj(d.event))]
      + (if name.Some? then [Field("name", name.value, (d: Dispatched) => Str(d.name))] else [])
  }

  /** Expected by class name, the event field accepts exactly the events of
      that class or of a class below it. */
  lemma EventFieldAccepts(index: nat, className: string, shown: string, name: Option<Expected<Value>>,
                          isA: (string, string) -> bool, d: Dispatched)
    ensures FieldEntries(index, ExpectFields(Raw(Str(className), shown), name, isA))[0].constraint.accepts(d)
        <==> isA(d.event.className, className)
  {
    var f := ExpectFields(Raw(Str(className), shown), name, isA)[0];
    FieldEntryAccepts(index, f.name, f.expected, f.actual, d);
  }

  /** `dispatch($event, $eventName)`: the name defaults to the event's
      class. */
  function RecordOf(event: Object, eventName: Option<string>): (d: Dispatched)
    ensures d.event == event
    ensures eventName.Some? ==> d.name == eventName.value
    ensures eventName.None? ==> d.name == event.className
  {
    Dispatched(event, if eventName.Some? then eventName.value else event.className)
  }

  class TestEventDispatcher {
    const table: GroupTable<Dispatched>
    var events: seq<Dispatched>

    ghost predicate Valid()
      reads this, table
    {
      table.Valid() && table.groupName == GroupName
    }

    constructor ()
      ensures Valid() && fresh(table)
      ensures events == [] && table.entries == [] && table.current == 0
    {
      table := new GroupTable(GroupName);
      events := [];
    }

    /** `expect($event, $name)`: a new group. */
    method Expect(event: Expected<Value>, name: Option<Expected<Value>>, isA: (string, string) -> bool)
      requires Valid()
      requires event.Raw? ==> event.value.Str?
      modifies table
      ensures Valid()
      ensures table.current == old(table.current) + 1
      ensures table.entries == old(table.entries) + FieldEntries(table.current, ExpectFields(event, name, isA))
    {
      table.Open(ExpectFields(event, name, isA));
    }

    /** `dispatch($event, $eventName)`: one record at the end; the event is
        handed back as it came. */
    method Dispatch(event: Object, eventName: Option<string>) returns (r: Object)
      modifies this
      ensures r == event
      ensures events == old(events) + [RecordOf(event, eventName)]
    {
      events := events + [RecordOf(event, eventName)];
      r := event;
    }

    /** `addListener`, `addSubscriber`, `removeListener` and
        `removeSubscriber`: always refused, and nothing is recorded. */
    method AddListener(eventName: string, listener: Value, priority: int) returns (r: Result<()>)
      ensures r == Throws(BadMethodCall(Unmodifiable))
    {
      r := Throws(BadMethodCall(Unmodifiable));
    }

    method AddSubscriber(subscriber: Object) returns (r: Result<()>)
      ensures r == Throws(BadMethodCall(Unmodifiable))
    {
      r := Throws(BadMethodCall(Unmodifiable));
    }

    method RemoveListener(eventName: string, listener: Value) returns (r: Result<()>)
      ensures r == Throws(BadMethodCall(Unmodifiable))
    {
      r := Throws(BadMethodCall(Unmodifiable));
    }

    method RemoveSubscriber(subscriber: Object) returns (r: Result<()>)
      ensures r == Throws(BadMethodCall(Unmodifiable))
    {
      r := Throws(BadMethodCall(Unmodifiable));
    }

    /** The queries: no listener, whatever is asked. */
    function GetListeners(eventName: Option<string>): (ls: seq<Value>)
      ensures ls == []
    {
      []
    }

    function GetListenerPriority(eventName: string, listener: Value): (p: Option<int>)
      ensures p.None?
    {
      None
    }

    function HasListeners(eventName: Option<string>): (b: bool)
      ensures !b
    {
      false
    }

    /** `assert($strict)` over the dispatched events, in dispatch order. */
    method Assert(strict: bool) returns (failures: seq<GroupFailure>)
      requires Valid()
      ensures failures == Report(GroupName, Match(Members(GroupBy(table.entries)), events), strict)
    {
      failures := table.Assert(events, strict);
    }
  }
}
