/** `AbstractTestGroup`: expectations declared group by group, asserted by
    letting each group claim one recorded element, first fit. */
module TestGroups {
  import opened Php
  import opened PhpStrings
  import opened Matchers
  import opened TestConstraints
  import opened TestConstraintGroups
  import opened Expectations
  import opened Grouping
  import opened FirstFit

  /** A failure `assert` collects: a group no remaining element satisfies,
      or, in strict mode, the elements no group claimed.  Both carry the
      recorder's `GROUP_NAME`. */
  datatype GroupFailure =
    | NoMatch(groupName: string, group: nat)
    | Leftover(groupName: string, elements: seq<nat>)

  function Members<T>(groups: seq<Group<T>>): (ms: seq<seq<TestConstraint<T>>>)
    ensures |ms| == |groups|
    ensures forall i :: 0 <= i < |groups| ==> ms[i] == groups[i].members
  {
    seq(|groups|, i requires 0 <= i < |groups| => groups[i].members)
  }

  function NoMatches(groupName: string, unmatched: seq<nat>): (fs: seq<GroupFailure>)
    ensures |fs| == |unmatched|
    ensures forall k :: 0 <= k < |unmatched| ==> fs[k] == NoMatch(groupName, unmatched[k])
  {
    seq(|unmatched|, k requires 0 <= k < |unmatched| => NoMatch(groupName, unmatched[k]))
  }

  /** An unmatched group adds its failure at the end; a matched one adds
      nothing. */
  lemma NoMatchesSnoc(groupName: string, claims: seq<Option<nat>>, x: Option<nat>)
    ensures NoMatches(groupName, Unmatched(claims + [x]))
         == NoMatches(groupName, Unmatched(claims)) + (if x.None? then [NoMatch(groupName, |claims|)] else [])
  {
    UnmatchedSnoc(claims, x);
    var u := Unmatched(claims);
    if x.None? {
      assert Unmatched(claims + [x]) == u + [|claims|];
      NoMatchesAppend(groupName, u, [|claims|]);
      assert NoMatches(groupName, [|claims|]) == [NoMatch(groupName, |claims|)];
    } else {
      assert Unmatched(claims + [x]) == u + [];
      assert u + [] == u;
    }
  }

  lemma NoMatchesAppend(groupName: string, a: seq<nat>, b: seq<nat>)
    ensures NoMatches(groupName, a + b) == NoMatches(groupName, a) + NoMatches(groupName, b)
  {
    var l, r := NoMatches(groupName, a + b), NoMatches(groupName, a) + NoMatches(groupName, b);
    assert |l| == |r|;
    forall k | 0 <= k < |l|
      ensures l[k] == r[k]
    {
      if k < |a| {
        assert (a + b)[k] == a[k];
      } else {
        assert (a + b)[k] == b[k - |a|];
      }
    }
  }

  /** The failures of `assert`: one per unmatched group, in group order,
      then the leftovers when `strict` and some element is left. */
  function Report(groupName: string, m: Matching, strict: bool): seq<GroupFailure>
  {
    NoMatches(groupName, Unmatched(m.claims)) + (if strict && m.rest != [] then [Leftover(groupName, m.rest)] else [])
  }

  /** `assert` throws iff some group is unmatched or, in strict mode, some
      element is left over. */
  lemma ReportEmptyIff(groupName: string, m: Matching, strict: bool)
    ensures Report(groupName, m, strict) == [] <==>
      (forall i :: 0 <= i < |m.claims| ==> m.claims[i].Some?) && (!strict || m.rest == [])
  {
    UnmatchedEmptyIff(m.claims);
  }

  /** The engine's error for `$constraint->toString()` on a
      `TestConstraintGroup`, which declares no such method. */
  const UndefinedToString := "Call to undefined method Forlond\\TestTools\\TestConstraintGroup::toString()"

  /** `assert` as written: building the message of the first unmatched
      group calls `toString()` on the group, and the engine's `Error` ends
      `assert`; with every group matched, the leftovers are reported as
      intended. */
  function ReportAsWritten(groupName: string, m: Matching, strict: bool): Result<seq<GroupFailure>>
  {
    if Unmatched(m.claims) != [] then Throws(Error(UndefinedToString))
    else Ok(Report(groupName, m, strict))
  }

  /** As written, `assert` ends in the engine's `Error` exactly when some
      group is unmatched, where `Report` lists a failure for that group;
      otherwise the only failure possible is the strict leftover one. */
  lemma UnmatchedGroupIsEngineError(groupName: string, m: Matching, strict: bool)
    ensures ReportAsWritten(groupName, m, strict).Throws? <==> exists i :: 0 <= i < |m.claims| && m.claims[i].None?
    ensures ReportAsWritten(groupName, m, strict).Throws? ==>
      ReportAsWritten(groupName, m, strict).error == Error(UndefinedToString)
      && Report(groupName, m, strict)[0].NoMatch?
    ensures ReportAsWritten(groupName, m, strict).Ok? ==>
      ReportAsWritten(groupName, m, strict).value == (if strict && m.rest != [] then [Leftover(groupName, m.rest)] else [])
  {
    UnmatchedEmptyIff(m.claims);
    if Unmatched(m.claims) != [] {
      assert Report(groupName, m, strict)[0] == NoMatches(groupName, Unmatched(m.claims))[0];
    } else {
      assert NoMatches(groupName, []) == [];
    }
  }

  /** The leftover failure lists exactly the elements no group claimed, and
      is reported only in strict mode. */
  lemma {:induction false} ReportLeftover<T>(groupName: string, groups: seq<seq<TestConstraint<T>>>, elements: seq<T>, strict: bool)
    ensures var m := Match(groups, elements);
      var r := Report(groupName, m, strict);
      && (!strict ==> forall k :: 0 <= k < |r| ==> r[k].NoMatch?)
      && (strict && m.rest != [] ==> r[|r| - 1] == Leftover(groupName, m.rest))
      && (forall e :: 0 <= e < |elements| ==> (e in m.rest <==> !ClaimedBefore(m.claims, |groups|, e)))
  {
    MatchRest(groups, elements);
  }

  /** Entries all under one prefix form one group holding them all. */
  lemma {:induction false} GroupBySamePrefix<T>(entries: seq<Entry<T>>, prefix: string)
    requires entries != []
    requires forall k :: 0 <= k < |entries| ==> IndexPart(entries[k].key) == prefix
    ensures GroupBy(entries) == [Group(prefix, Constraints(entries))]
  {
    var n := |entries| - 1;
    assert Constraints(entries) == Constraints(entries[..n]) + [entries[n].constraint];
    if n > 0 {
      assert forall k :: 0 <= k < n ==> entries[..n][k] == entries[k];
      GroupBySamePrefix(entries[..n], prefix);
      assert Find(GroupBy(entries[..n]), prefix) == 0;
    } else {
      assert entries[..n] == [];
      assert GroupBy(entries) == Add([], IndexPart(entries[0].key), entries[0].constraint);
      assert Constraints(entries) == [entries[0].constraint];
    }
  }

  /** The fields declared after one `next()` on an empty table form a
      single group. */
  lemma OneOpenIsOneGroup<T>(fields: seq<Field<T>>)
    requires fields != []
    ensures GroupBy(FieldEntries(1, fields)) == [Group(NatToString(1), Constraints(FieldEntries(1, fields)))]
  {
    var es := FieldEntries(1, fields);
    forall k | 0 <= k < |es|
      ensures IndexPart(es[k].key) == NatToString(1)
    {
      FieldKeyRoundTrip(1, fields[k].name);
    }
    GroupBySamePrefix(es, NatToString(1));
  }

  /** One group against one element it accepts: nothing to report, strict
      or not. */
  lemma OneGroupOneElement<T>(groupName: string, cs: seq<TestConstraint<T>>, e: T, strict: bool)
    requires AllAccept(cs, e)
    ensures Report(groupName, Match([cs], [e]), strict) == []
  {
    assert [cs][..0] == [];
    assert Range(1) == [0];
    assert Match([cs][..0], [e]) == Matching([], [0]);
    assert FirstAccepted(cs, [e], [0]) == Some(0);
    assert Match([cs], [e]) == Matching([Some(0)], []);
    UnmatchedEmptyIff([Some(0)]);
  }

  /** The inner `foreach` of `assert`: the place, in the working copy, of
      the first element the group accepts. */
  method FindClaim<T>(group: TestConstraintGroup<T>, elements: seq<T>, rest: seq<nat>) returns (p: Option<nat>)
    requires InRange(rest, |elements|)
    ensures p == FirstAccepted(group.constraints, elements, rest)
  {
    var j := 0;
    while j < |rest| && !TestConstraintGroups.Evaluate(group, elements[rest[j]])
      invariant 0 <= j <= |rest|
      invariant forall q :: 0 <= q < j ==> !AllAccept(group.constraints, elements[rest[q]])
    {
      j := j + 1;
    }
    p := if j < |rest| then Some(j) else None;
    FirstAcceptedSpec(group.constraints, elements, rest);
  }

  /** One turn of the outer loop of `assert`: group `g` claims the first
      remaining element it accepts, or is reported unmatched. */
  method ClaimStep<T>(groupName: string, ms: seq<seq<TestConstraint<T>>>, g: nat, elements: seq<T>,
                      rest: seq<nat>, ghost claims: seq<Option<nat>>, failures: seq<GroupFailure>)
    returns (rest': seq<nat>, ghost claims': seq<Option<nat>>, failures': seq<GroupFailure>)
    requires g < |ms|
    requires Match(ms[..g], elements) == Matching(claims, rest)
    requires failures == NoMatches(groupName, Unmatched(claims))
    ensures Match(ms[..g + 1], elements) == Matching(claims', rest')
    ensures failures' == NoMatches(groupName, Unmatched(claims'))
  {
    var p := FindClaim(TestConstraintGroup(ms[g]), elements, rest);
    MatchNext(ms, g, elements, claims, rest, p);
    if p.Some? {
      NoMatchesSnoc(groupName, claims, Some(rest[p.value]));
      rest', claims', failures' := rest[..p.value] + rest[p.value + 1..], claims + [Some(rest[p.value])], failures;
    } else {
      NoMatchesSnoc(groupName, claims, None);
      rest', claims', failures' := rest, claims + [None], failures + [NoMatch(groupName, g)];
    }
  }

  class GroupTable<T> {
    /** `static::GROUP_NAME`. */
    const groupName: string
    /** The inherited `$constraints` table. */
    var entries: seq<Entry<T>>
    var current: nat
    /** The counter and the field name each entry was declared with. */
    ghost var indices: seq<nat>
    ghost var names: seq<string>

    ghost predicate Valid()
      reads this
    {
      && UniqueKeys(entries)
      && |indices| == |entries| == |names|
      && (forall k :: 0 <= k < |entries| ==> entries[k].key == FieldKey(indices[k], names[k]) && indices[k] <= current)
      && (forall k, l :: 0 <= k <= l < |entries| ==> indices[k] <= indices[l])
    }

    constructor (groupName: string)
      ensures Valid()
      ensures this.groupName == groupName && entries == [] && current == 0
    {
      this.groupName := groupName;
      entries := [];
      current := 0;
      indices := [];
      names := [];
    }

    /** `name` is already a field of the current group. */
    ghost predicate DeclaredInCurrent(name: string)
      reads this
      requires Valid()
    {
      exists k :: 0 <= k < |entries| && indices[k] == current && names[k] == name
    }

    /** The key of a field is taken iff the current group has the field. */
    lemma KeyDeclaredIff(name: string)
      requires Valid()
      ensures FieldKey(current, name) in Keys(entries) <==> DeclaredInCurrent(name)
    {
      var key := FieldKey(current, name);
      if key in Keys(entries) {
        var k :| 0 <= k < |entries| && Keys(entries)[k] == key;
        FieldKeyInjective(indices[k], names[k], current, name);
      }
      if DeclaredInCurrent(name) {
        var k :| 0 <= k < |entries| && indices[k] == current && names[k] == name;
        assert Keys(entries)[k] == key;
      }
    }

    /** `next()`: the next declarations go to a new group. */
    method Next()
      requires Valid()
      modifies this
      ensures Valid()
      ensures current == old(current) + 1
      ensures entries == old(entries) && indices == old(indices) && names == old(names)
      ensures forall n :: !DeclaredInCurrent(n)
    {
      current := current + 1;
    }

    /** `set($name, …)`: the field is stored under `"<current>.<name>"`, so
        it may be declared once per group. */
    method Set<V(==)>(name: string, expected: Expected<V>, actual: T -> V) returns (r: Result<()>)
      requires Valid()
      modifies this
      ensures Valid()
      ensures current == old(current)
      ensures r.Throws? <==> old(DeclaredInCurrent(name))
      ensures r.Throws? <==> FieldKey(current, name) in Keys(old(entries))
      ensures r.Throws? ==> r.error == Runtime("Cannot redefine " + FieldKey(current, name)) && entries == old(entries)
      ensures r.Ok? ==> entries == Declare(old(entries), FieldKey(current, name), expected, actual).value
      ensures r.Ok? ==> entries == old(entries) + [FieldEntry(current, name, expected, actual)]
      ensures r.Ok? ==> indices == old(indices) + [current] && names == old(names) + [name]
      ensures forall n :: DeclaredInCurrent(n) <==> old(DeclaredInCurrent(n)) || (r.Ok? && n == name)
    {
      var key := FieldKey(current, name);
      KeyDeclaredIff(name);
      var d := Declare(entries, key, expected, actual);
      if d.Throws? {
        r := Throws(d.error);
      } else {
        entries := d.value;
        indices := indices + [current];
        names := names + [name];
        r := Ok(());
      }
    }

    /** What one `set` of a field leaves behind: the counter kept, and
        either the field refused, because the current group has it already,
        with nothing changed, or the field appended to the table. */
    twostate predicate SetOutcome(field: Field<T>, new r: Result<()>)
      reads this
    {
      && old(Valid()) && Valid()
      && current == old(current)
      && (r.Throws? <==> old(DeclaredInCurrent(field.name)))
      && (r.Throws? ==> r.error == Runtime("Cannot redefine " + FieldKey(current, field.name)) && entries == old(entries))
      && (r.Ok? ==> entries == old(entries) + [FieldEntry(current, field.name, field.expected, field.actual)])
      && (forall n :: DeclaredInCurrent(n) <==> old(DeclaredInCurrent(n)) || (r.Ok? && n == field.name))
    }

    /** One builder call after `next()`: a field of the current group. */
    method SetField(field: Field<T>) returns (r: Result<()>)
      requires Valid()
      modifies this
      ensures SetOutcome(field, r)
    {
      r := Set(field.name, field.expected, field.actual);
    }

    /** Several `set` calls of one builder, in order: the first field the
        current group already has throws, and the fields before it stay
        declared. */
    method SetAll(fields: seq<Field<T>>) returns (r: Result<()>)
      requires Valid() && DistinctNames(fields)
      modifies this
      ensures Valid() && current == old(current)
      ensures r.Ok? <==> forall i :: 0 <= i < |fields| ==> !old(DeclaredInCurrent(fields[i].name))
      ensures r.Ok? ==> entries == old(entries) + FieldEntries(current, fields)
      ensures r.Throws? ==> exists k :: (
        && 0 <= k < |fields| && old(DeclaredInCurrent(fields[k].name))
        && (forall i :: 0 <= i < k ==> !old(DeclaredInCurrent(fields[i].name)))
        && r.error == Runtime("Cannot redefine " + FieldKey(current, fields[k].name))
        && entries == old(entries) + FieldEntries(current, fields[..k]))
    {
      for i := 0 to |fields|
        invariant Valid() && current == old(current)
        invariant forall j :: 0 <= j < i ==> !old(DeclaredInCurrent(fields[j].name))
        invariant entries == old(entries) + FieldEntries(current, fields[..i])
        invariant forall j :: i <= j < |fields| ==> (DeclaredInCurrent(fields[j].name) <==> old(DeclaredInCurrent(fields[j].name)))
      {
        FieldsSnoc(current, fields, i);
        ghost var declared := DeclaredInCurrent(fields[i].name);
        assert declared == old(DeclaredInCurrent(fields[i].name));
        r := SetField(fields[i]);
        assert r.Throws? <==> declared;
        if r.Throws? {
          assert entries == old(entries) + FieldEntries(current, fields[..i]);
          return;
        }
      }
      assert fields[..|fields|] == fields;
      r := Ok(());
    }

    /** `next()` then one `set` per field: a builder opening a group.  The
        group is new, so distinct names are never refused. */
    method Open(fields: seq<Field<T>>)
      requires Valid() && DistinctNames(fields)
      modifies this
      ensures Valid()
      ensures current == old(current) + 1
      ensures entries == old(entries) + FieldEntries(current, fields)
      ensures forall n :: DeclaredInCurrent(n) <==> n in Names(fields)
    {
      Next();
      for i := 0 to |fields|
        invariant Valid()
        invariant current == old(current) + 1
        invariant entries == old(entries) + FieldEntries(current, fields[..i])
        invariant forall n :: DeclaredInCurrent(n) <==> n in Names(fields[..i])
      {
        FieldsSnoc(current, fields, i);
        var r := SetField(fields[i]);
      }
      assert fields[..|fields|] == fields;
    }

    /** `getConstraints()`: one group per counter value, see
        `GroupByShape` and `GroupsFollowCounter`. */
    method GetConstraints() returns (groups: seq<Group<T>>)
      ensures groups == GroupBy(entries)
    {
      groups := [];
      for i := 0 to |entries|
        invariant groups == GroupBy(entries[..i])
      {
        assert entries[..i + 1][..i] == entries[..i];
        groups := Add(groups, IndexPart(entries[i].key), entries[i].constraint);
      }
      assert entries[..|entries|] == entries;
    }

    /** The groups come in increasing counter order, each prefix being the
        counter written in decimal. */
    lemma GroupsFollowCounter()
      requires Valid()
      ensures var gs := GroupBy(entries);
        && |gs| == |Dedup(indices)|
        && (forall a :: 0 <= a < |gs| ==> gs[a].prefix == NatToString(Dedup(indices)[a]))
        && (forall a, b :: 0 <= a < b < |gs| ==> Dedup(indices)[a] < Dedup(indices)[b])
    {
      GroupByShape(entries);
      LabelsOfFieldKeys(entries, indices, names);
      DedupAscending(indices);
    }

    /** `assert($strict)` against the recorder's `getValue()`: each group
        claims the first remaining element it accepts; a claimed element
        leaves the local working copy.  The failures are returned, and the
        source throws them together iff there is at least one. */
    method Assert(elements: seq<T>, strict: bool) returns (failures: seq<GroupFailure>)
      ensures failures == Report(groupName, Match(Members(GroupBy(entries)), elements), strict)
    {
      var groups := GetConstraints();
      var ms := Members(groups);
      var rest := Range(|elements|);
      ghost var claims: seq<Option<nat>> := [];
      failures := [];
      assert ms[..0] == [];
      for g := 0 to |ms|
        invariant Match(ms[..g], elements) == Matching(claims, rest)
        invariant failures == NoMatches(groupName, Unmatched(claims))
      {
        rest, claims, failures := ClaimStep(groupName, ms, g, elements, rest, claims, failures);
      }
      assert ms[..|ms|] == ms;
      if strict && rest != [] {
        failures := failures + [Leftover(groupName, rest)];
      }
    }
  }
}
