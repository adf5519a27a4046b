/** `AbstractTestCollection`: the same grouped declarations and first-fit
    matching as `AbstractTestGroup`, with one `TestConstraintCollection`
    per group, and a report that puts unmatched expectations before
    leftover elements. */
module TestCollections {
  import opened Php
  import opened Matchers
  import opened TestConstraints
  import opened TestConstraintCollections
  import opened Expectations
  import opened Grouping
  import opened FirstFit
  import opened TestGroups

  /** What `assert` does: return, or throw about the unmatched
      expectations, or, only when every expectation matched, throw about
      the leftover elements. */
  datatype CollectionOutcome =
    | Passed
    | UnmatchedExpectations(groups: seq<nat>)
    | LeftoverElements(elements: seq<nat>)

  function Outcome(m: Matching, strict: bool): CollectionOutcome
  {
    var u := Unmatched(m.claims);
    if u != [] then UnmatchedExpectations(u)
    else if strict && m.rest != [] then LeftoverElements(m.rest)
    else Passed
  }

  /** `assert` returns normally iff every expectation matched and, in
      strict mode, no element is left over; leftovers are only looked at
      when every expectation matched. */
  lemma OutcomeSpec(m: Matching, strict: bool)
    ensures Outcome(m, strict) == Passed <==>
      (forall i :: 0 <= i < |m.claims| ==> m.claims[i].Some?) && (!strict || m.rest == [])
    ensures Outcome(m, strict).LeftoverElements? ==> forall i :: 0 <= i < |m.claims| ==> m.claims[i].Some?
    ensures Outcome(m, strict).UnmatchedExpectations? <==> exists i :: 0 <= i < |m.claims| && m.claims[i].None?
  {
    UnmatchedEmptyIff(m.claims);
  }

  /** The inner `foreach` of `assert` over one collection. */
  method FindClaimIn<T>(c: TestConstraintCollection<T>, elements: seq<T>, rest: seq<nat>) returns (p: Option<nat>)
    requires InRange(rest, |elements|)
    ensures p == FirstAccepted(c.constraints, elements, rest)
  {
    var j := 0;
    while j < |rest| && !c.Evaluate(elements[rest[j]])
      invariant 0 <= j <= |rest|
      invariant forall q :: 0 <= q < j ==> !TestConstraintGroups.AllAccept(c.constraints, elements[rest[q]])
    {
      j := j + 1;
    }
    p := if j < |rest| then Some(j) else None;
    FirstAcceptedSpec(c.constraints, elements, rest);
  }

  /** One turn of the outer loop of `assert`: collection `g` claims the
      first remaining element it accepts, or joins the unmatched ones. */
  method ClaimStepIn<T>(c: TestConstraintCollection<T>, ghost ms: seq<seq<TestConstraint<T>>>, g: nat, elements: seq<T>,
                      rest: seq<nat>, ghost claims: seq<Option<nat>>, unmatched: seq<nat>)
    returns (rest': seq<nat>, ghost claims': seq<Option<nat>>, unmatched': seq<nat>)
    requires g < |ms| && c.constraints == ms[g]
    requires Match(ms[..g], elements) == Matching(claims, rest)
    requires unmatched == Unmatched(claims)
    ensures Match(ms[..g + 1], elements) == Matching(claims', rest')
    ensures unmatched' == Unmatched(claims')
  {
    var p := FindClaimIn(c, elements, rest);
    MatchNext(ms, g, elements, claims, rest, p);
    if p.Some? {
      UnmatchedSnoc(claims, Some(rest[p.value]));
      rest', claims', unmatched' := rest[..p.value] + rest[p.value + 1..], claims + [Some(rest[p.value])], unmatched;
    } else {
      UnmatchedSnoc(claims, None);
      rest', claims', unmatched' := rest, claims + [None], unmatched + [g];
    }
  }

  /** The collections, one per group of `gs` and in the same order, carry
      that group's prefix and hold its constraints; no collection is shared. */
  ghost predicate Mirrors<T>(cols: seq<(string, TestConstraintCollection<T>)>, gs: seq<Group<T>>)
    reads set a | 0 <= a < |cols| :: cols[a].1
  {
    && |cols| == |gs|
    && (forall a :: 0 <= a < |cols| ==> cols[a].0 == gs[a].prefix && cols[a].1.constraints == gs[a].members)
    && (forall a, b :: 0 <= a < b < |cols| ==> cols[a].1 != cols[b].1)
  }

  /** One turn of the loop of `getConstraints()`: the constraint is added
      to the collection of its prefix, which is created the first time the
      prefix is met.  `gs` is the grouping the collections mirror. */
  method AddToCollection<T>(cols: seq<(string, TestConstraintCollection<T>)>, ghost gs: seq<Group<T>>,
                            prefix: string, c: TestConstraint<T>)
    returns (cols': seq<(string, TestConstraintCollection<T>)>)
    requires Mirrors(cols, gs)
    modifies set a | 0 <= a < |cols| :: cols[a].1
    ensures Mirrors(cols', Add(gs, prefix, c))
    ensures forall a :: 0 <= a < |cols| ==> cols'[a] == cols[a]
    ensures |cols'| == |cols| || (|cols'| == |cols| + 1 && fresh(cols'[|cols|].1))
  {
    var p := 0;
    while p < |cols| && cols[p].0 != prefix
      invariant 0 <= p <= |cols|
      invariant forall q :: 0 <= q < p ==> cols[q].0 != prefix
    {
      p := p + 1;
    }
    if p == |cols| {
      assert Find(gs, prefix) == -1;
      var col := new TestConstraintCollection();
      var _ := col.AddConstraint(c);
      cols' := cols + [(prefix, col)];
    } else {
      assert p == Find(gs, prefix);
      var col := cols[p].1;
      var _ := col.AddConstraint(c);
      cols' := cols;
    }
  }

  class CollectionTable<T> {
    var entries: seq<Entry<T>>
    var current: nat
    ghost var indices: seq<nat>
    ghost var names: seq<string>

    ghost predicate Valid()
      reads this
    {
      && UniqueKeys(entries)
      && |indices| == |entries| == |names|
      && (forall k :: 0 <= k < |entries| ==> entries[k].key == FieldKey(indices[k], names[k]) && indices[k] <= current)
      && (forall k, l :: 0 <= k <= l < |entries| ==> indices[k] <= indices[l])
    }

    constructor ()
      ensures Valid() && entries == [] && current == 0
    {
      entries := [];
      current := 0;
      indices := [];
      names := [];
    }

    ghost predicate DeclaredInCurrent(name: string)
      reads this
      requires Valid()
    {
      exists k :: 0 <= k < |entries| && indices[k] == current && names[k] == name
    }

    /** `next()`. */
    method Next()
      requires Valid()
      modifies this
      ensures Valid()
      ensures current == old(current) + 1
      ensures entries == old(entries) && indices == old(indices) && names == old(names)
      ensures forall n :: !DeclaredInCurrent(n)
    {
      current := current + 1;
    }

    /** The key of a field is taken iff the current group has the field. */
    lemma KeyDeclaredIff(name: string)
      requires Valid()
      ensures FieldKey(current, name) in Keys(entries) <==> DeclaredInCurrent(name)
    {
      var key := FieldKey(current, name);
      if key in Keys(entries) {
        var k :| 0 <= k < |entries| && Keys(entries)[k] == key;
        FieldKeyInjective(indices[k], names[k], current, name);
      }
      if DeclaredInCurrent(name) {
        var k :| 0 <= k < |entries| && indices[k] == current && names[k] == name;
        assert Keys(entries)[k] == key;
      }
    }

    /** `set($name, …)` under the key `"<current>.<name>"`. */
    method Set<V(==)>(name: string, expected: Expected<V>, actual: T -> V) returns (r: Result<()>)
      requires Valid()
      modifies this
      ensures Valid()
      ensures current == old(current)
      ensures r.Throws? <==> old(DeclaredInCurrent(name))
      ensures r.Throws? <==> FieldKey(current, name) in Keys(old(entries))
      ensures r.Throws? ==> r.error == Runtime("Cannot redefine " + FieldKey(current, name)) && entries == old(entries)
      ensures r.Ok? ==> entries == Declare(old(entries), FieldKey(current, name), expected, actual).value
      ensures r.Ok? ==> entries == old(entries) + [FieldEntry(current, name, expected, actual)]
      ensures r.Ok? ==> indices == old(indices) + [current] && names == old(names) + [name]
      ensures forall n :: DeclaredInCurrent(n) <==> old(DeclaredInCurrent(n)) || (r.Ok? && n == name)
    {
      var key := FieldKey(current, name);
      KeyDeclaredIff(name);
      var d := Declare(entries, key, expected, actual);
      if d.Throws? {
        r := Throws(d.error);
      } else {
        entries := d.value;
        indices := indices + [current];
        names := names + [name];
        r := Ok(());
      }
    }

    /** What one `set` of a field leaves behind: the counter kept, and
        either the field refused, because the current group has it already,
        with nothing changed, or the field appended to the table. */
    twostate predicate SetOutcome(field: Field<T>, new r: Result<()>)
      reads this
    {
      && old(Valid()) && Valid()
      && current == old(current)
      && (r.Throws? <==> old(DeclaredInCurrent(field.name)))
      && (r.Throws? ==> r.error == Runtime("Cannot redefine " + FieldKey(current, field.name)) && entries == old(entries))
      && (r.Ok? ==> entries == old(entries) + [FieldEntry(current, field.name, field.expected, field.actual)])
      && (forall n :: DeclaredInCurrent(n) <==> old(DeclaredInCurrent(n)) || (r.Ok? && n == field.name))
    }

    /** One builder call after `next()`: a field of the current group. */
    method SetField(field: Field<T>) returns (r: Result<()>)
      requires Valid()
      modifies this
      ensures SetOutcome(field, r)
    {
      r := Set(field.name, field.expected, field.actual);
    }

    /** `next()` then one `set` per field: a builder opening a group.  The
        group is new, so distinct names are never refused. */
    method Open(fields: seq<Field<T>>)
      requires Valid() && DistinctNames(fields)
      modifies this
      ensures Valid()
      ensures current == old(current) + 1
      ensures entries == old(entries) + FieldEntries(current, fields)
      ensures forall n :: DeclaredInCurrent(n) <==> n in Names(fields)
    {
      Next();
      for i := 0 to |fields|
        invariant Valid()
        invariant current == old(current) + 1
        invariant entries == old(entries) + FieldEntries(current, fields[..i])
        invariant forall n :: DeclaredInCurrent(n) <==> n in Names(fields[..i])
      {
        assert Names(fields[..i + 1]) == Names(fields[..i]) + [fields[i].name];
        assert fields[i].name !in Names(fields[..i]);
        var r := SetField(fields[i]);
        assert FieldEntries(current, fields[..i + 1]) == FieldEntries(current, fields[..i]) + [FieldEntry(current, fields[i].name, fields[i].expected, fields[i].actual)];
      }
      assert fields[..|fields|] == fields;
    }

    /** `getConstraints()`: a new `TestConstraintCollection` the first time
        a prefix is met, to which every constraint of that prefix is added
        in declaration order. */
    method GetConstraints() returns (cols: seq<(string, TestConstraintCollection<T>)>)
      ensures |cols| == |GroupBy(entries)|
      ensures forall a :: 0 <= a < |cols| ==>
        cols[a].0 == GroupBy(entries)[a].prefix && cols[a].1.constraints == GroupBy(entries)[a].members
      ensures forall a :: 0 <= a < |cols| ==> fresh(cols[a].1)
      ensures forall a, b :: 0 <= a < b < |cols| ==> cols[a].1 != cols[b].1
    {
      cols := [];
      for i := 0 to |entries|
        invariant Mirrors(cols, GroupBy(entries[..i]))
        invariant forall a :: 0 <= a < |cols| ==> fresh(cols[a].1)
      {
        assert entries[..i + 1][..i] == entries[..i];
        ghost var next := Add(GroupBy(entries[..i]), IndexPart(entries[i].key), entries[i].constraint);
        assert GroupBy(entries[..i + 1]) == next;
        ghost var before := cols;
        cols := AddToCollection(cols, GroupBy(entries[..i]), IndexPart(entries[i].key), entries[i].constraint);
        forall a | 0 <= a < |cols|
          ensures fresh(cols[a].1)
        {
          if a < |before| {
            assert cols[a] == before[a];
          }
        }
      }
      assert entries[..|entries|] == entries;
    }

    /** `assert($strict)` against the recorder's `getCollection()`. */
    method Assert(elements: seq<T>, strict: bool) returns (outcome: CollectionOutcome)
      ensures outcome == Outcome(Match(Members(GroupBy(entries)), elements), strict)
    {
      var cols := GetConstraints();
      ghost var ms := Members(GroupBy(entries));
      var rest := Range(|elements|);
      ghost var claims: seq<Option<nat>> := [];
      var unmatched: seq<nat> := [];
      assert ms[..0] == [];
      for g := 0 to |cols|
        invariant Match(ms[..g], elements) == Matching(claims, rest)
        invariant unmatched == Unmatched(claims)
        invariant forall a :: 0 <= a < |cols| ==> cols[a].1.constraints == ms[a]
      {
        rest, claims, unmatched := ClaimStepIn(cols[g].1, ms, g, elements, rest, claims, unmatched);
      }
      assert ms[..|cols|] == ms;
      if unmatched != [] {
        outcome := UnmatchedExpectations(unmatched);
      } else if strict && rest != [] {
        outcome := LeftoverElements(rest);
      } else {
        outcome := Passed;
      }
    }
  }
}
