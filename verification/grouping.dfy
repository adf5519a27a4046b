/** The keys of the grouped tables and the grouping of `getConstraints()`
    in `AbstractTestGroup` and `AbstractTestCollection`.

    A field declared while the table's counter is `i` is stored under the
    key `"<i>.<name>"`; `getConstraints()` cuts every key at its first dot
    and collects the constraints of equal prefixes, in declaration order,
    under the prefix, the prefixes in order of first appearance. */
module Grouping {
  import opened Php
  import opened PhpStrings
  import opened Matchers
  import opened TestConstraints
  import opened Expectations

  /** `sprintf('%d.%s', $this->current, $name)`. */
  function FieldKey(index: nat, name: string): string
  {
    NatToString(index) + "." + name
  }

  /** `[$index] = explode('.', $key)`. */
  function IndexPart(key: string): string
  {
    BeforeFirstDot(key)
  }

  /** The prefix of a key reads back as the counter it was declared under,
      whatever dots the field name holds, and the rest of the key is the
      field name. */
  lemma FieldKeyRoundTrip(index: nat, name: string)
    ensures IndexPart(FieldKey(index, name)) == NatToString(index)
    ensures ParseNat(IndexPart(FieldKey(index, name))) == index
    ensures FieldKey(index, name)[|IndexPart(FieldKey(index, name))| + 1..] == name
  {
    var digits := NatToString(index);
    BeforeFirstDotOfJoin(digits, name);
    ParseNatOfNatToString(index);
  }

  /** Two declarations share a key iff they share both the group and the
      field name. */
  lemma FieldKeyInjective(i: nat, a: string, j: nat, b: string)
    ensures FieldKey(i, a) == FieldKey(j, b) <==> i == j && a == b
  {
    FieldKeyRoundTrip(i, a);
    FieldKeyRoundTrip(j, b);
    NatToStringInjective(i, j);
  }

  /** The entry `set($name, $expected, $actual)` adds while the counter is
      `index`. */
  function FieldEntry<T, V(==)>(index: nat, name: string, expected: Expected<V>, actual: T -> V): (e: Entry<T>)
    ensures e.key == FieldKey(index, name) && e.constraint.name == FieldKey(index, name)
  {
    Entry(FieldKey(index, name), New(FieldKey(index, name), Normalize(expected), actual))
  }

  /** The stored constraint reads the field and applies the expectation. */
  lemma FieldEntryAccepts<T, V>(index: nat, name: string, expected: Expected<V>, actual: T -> V, x: T)
    ensures FieldEntry(index, name, expected, actual).constraint.accepts(x) == Normalize(expected).accepts(actual(x))
  {
  }

  /** One field a fluent builder declares: its name, the expectation and
      the resolver reading the field from a recorded element. */
  datatype Field<!T> = Field(name: string, expected: Expected<Value>, actual: T -> Value)

  function Names<T>(fields: seq<Field<T>>): (ns: seq<string>)
    ensures |ns| == |fields| && forall i :: 0 <= i < |fields| ==> ns[i] == fields[i].name
  {
    seq(|fields|, i requires 0 <= i < |fields| => fields[i].name)
  }

  predicate DistinctNames<T>(fields: seq<Field<T>>)
  {
    forall i, j :: 0 <= i < j < |fields| ==> fields[i].name != fields[j].name
  }

  /** The entries of the fields declared, in order, under one counter. */
  function FieldEntries<T>(index: nat, fields: seq<Field<T>>): (es: seq<Entry<T>>)
    ensures |es| == |fields|
    ensures forall i :: 0 <= i < |fields| ==>
      es[i] == FieldEntry(index, fields[i].name, fields[i].expected, fields[i].actual)
  {
    seq(|fields|, i requires 0 <= i < |fields| => FieldEntry(index, fields[i].name, fields[i].expected, fields[i].actual))
  }

  /** Declaring one more field of a run adds its name and its entry at the
      end; with distinct names, the new name is not among the earlier. */
  lemma FieldsSnoc<T>(index: nat, fields: seq<Field<T>>, i: nat)
    requires i < |fields|
    ensures Names(fields[..i + 1]) == Names(fields[..i]) + [fields[i].name]
    ensures FieldEntries(index, fields[..i + 1])
      == FieldEntries(index, fields[..i]) + [FieldEntry(index, fields[i].name, fields[i].expected, fields[i].actual)]
    ensures DistinctNames(fields) ==> fields[i].name !in Names(fields[..i])
  {
  }

  /** `$groups[$index]`: the constraints collected under one prefix. */
  datatype Group<!T> = Group(prefix: string, members: seq<TestConstraint<T>>)

  /** Where `prefix` sits among the groups, or -1. */
  function Find<T>(groups: seq<Group<T>>, prefix: string): (p: int)
    ensures -1 <= p < |groups|
    ensures p >= 0 ==> groups[p].prefix == prefix
    ensures forall q :: 0 <= q < |groups| && (p < 0 || q < p) ==> groups[q].prefix != prefix
  {
    if groups == [] then -1
    else if groups[0].prefix == prefix then 0
    else
      var p := Find(groups[1..], prefix);
      if p < 0 then -1 else p + 1
  }

  /** `$groups[$index][] = $constraint`. */
  function Add<T>(groups: seq<Group<T>>, prefix: string, c: TestConstraint<T>): seq<Group<T>>
  {
    var p := Find(groups, prefix);
    if p < 0 then groups + [Group(prefix, [c])]
    else groups[p := Group(prefix, groups[p].members + [c])]
  }

  /** The grouping loop of `getConstraints()`. */
  function GroupBy<T>(entries: seq<Entry<T>>): seq<Group<T>>
  {
    if entries == [] then []
    else
      var last := entries[|entries| - 1];
      Add(GroupBy(entries[..|entries| - 1]), IndexPart(last.key), last.constraint)
  }

  /** The distinct prefixes, in order of first appearance. */
  function Labels<T>(entries: seq<Entry<T>>): seq<string>
  {
    if entries == [] then []
    else
      var ls := Labels(entries[..|entries| - 1]);
      var l := IndexPart(entries[|entries| - 1].key);
      if l in ls then ls else ls + [l]
  }

  /** The constraints whose key has prefix `prefix`, in declaration order. */
  function Select<T>(entries: seq<Entry<T>>, prefix: string): seq<TestConstraint<T>>
  {
    if entries == [] then []
    else
      var s := Select(entries[..|entries| - 1], prefix);
      var last := entries[|entries| - 1];
      if IndexPart(last.key) == prefix then s + [last.constraint] else s
  }

  predicate Distinct(ls: seq<string>)
  {
    forall a, b :: 0 <= a < b < |ls| ==> ls[a] != ls[b]
  }

  /** The prefixes are distinct, each comes from an entry, and every
      entry's prefix is among them. */
  lemma {:induction false} LabelsSpec<T>(entries: seq<Entry<T>>)
    ensures Distinct(Labels(entries))
    ensures forall a :: 0 <= a < |Labels(entries)| ==>
      exists k :: 0 <= k < |entries| && IndexPart(entries[k].key) == Labels(entries)[a]
    ensures forall k :: 0 <= k < |entries| ==> IndexPart(entries[k].key) in Labels(entries)
  {
    if entries != [] {
      var init := entries[..|entries| - 1];
      LabelsSpec(init);
      assert forall k :: 0 <= k < |init| ==> entries[k] == init[k];
      var ls := Labels(entries);
      forall a | 0 <= a < |ls|
        ensures exists k :: 0 <= k < |entries| && IndexPart(entries[k].key) == ls[a]
      {
        if a < |Labels(init)| {
          var k :| 0 <= k < |init| && IndexPart(init[k].key) == Labels(init)[a];
          assert IndexPart(entries[k].key) == ls[a];
        } else {
          assert IndexPart(entries[|entries| - 1].key) == ls[a];
        }
      }
    }
  }

  /** A prefix no entry has selects nothing. */
  lemma {:induction false} SelectOfAbsent<T>(entries: seq<Entry<T>>, prefix: string)
    requires prefix !in Labels(entries)
    ensures Select(entries, prefix) == []
  {
    if entries != [] {
      var init := entries[..|entries| - 1];
      assert prefix !in Labels(init);
      SelectOfAbsent(init, prefix);
    }
  }

  /** `getConstraints()` builds one group per distinct prefix, in order of
      first appearance, holding exactly the constraints declared under that
      prefix, in declaration order. */
  lemma {:induction false} GroupByShape<T>(entries: seq<Entry<T>>)
    ensures |GroupBy(entries)| == |Labels(entries)|
    ensures forall a :: 0 <= a < |Labels(entries)| ==>
      GroupBy(entries)[a] == Group(Labels(entries)[a], Select(entries, Labels(entries)[a]))
  {
    if entries != [] {
      var init := entries[..|entries| - 1];
      var last := entries[|entries| - 1];
      var l := IndexPart(last.key);
      GroupByShape(init);
      LabelsSpec(init);
      var gs := GroupBy(init);
      var ls := Labels(init);
      var p := Find(gs, l);
      if p < 0 {
        forall a | 0 <= a < |ls|
          ensures ls[a] != l
        {
          assert gs[a].prefix == ls[a];
        }
        SelectOfAbsent(init, l);
      } else {
        assert ls[p] == l;
        assert l in ls;
        forall a | 0 <= a < |ls|
          ensures GroupBy(entries)[a] == Group(ls[a], Select(entries, ls[a]))
        {
          if a != p {
            assert ls[a] != l;
          }
        }
      }
    }
  }

  /** The number of constraints held by the groups. */
  function Total<T>(groups: seq<Group<T>>): nat
  {
    if groups == [] then 0 else Total(groups[..|groups| - 1]) + |groups[|groups| - 1].members|
  }

  lemma {:induction false} TotalUpdate<T>(groups: seq<Group<T>>, p: nat, g: Group<T>)
    requires p < |groups|
    ensures Total(groups[p := g]) == Total(groups) - |groups[p].members| + |g.members|
  {
    var n := |groups| - 1;
    if p < n {
      assert groups[p := g][..n] == groups[..n][p := g];
      TotalUpdate(groups[..n], p, g);
    } else {
      assert groups[p := g][..n] == groups[..n];
    }
  }

  /** No constraint is lost or duplicated by the grouping. */
  lemma {:induction false} GroupByKeepsAll<T>(entries: seq<Entry<T>>)
    ensures Total(GroupBy(entries)) == |entries|
  {
    if entries != [] {
      var init := entries[..|entries| - 1];
      var last := entries[|entries| - 1];
      GroupByKeepsAll(init);
      var gs := GroupBy(init);
      var p := Find(gs, IndexPart(last.key));
      if p < 0 {
        assert (gs + [Group(IndexPart(last.key), [last.constraint])])[..|gs|] == gs;
      } else {
        TotalUpdate(gs, p, Group(IndexPart(last.key), gs[p].members + [last.constraint]));
      }
    }
  }

  /** The distinct counters of a sequence, in order of first appearance. */
  function Dedup(xs: seq<nat>): seq<nat>
  {
    if xs == [] then []
    else
      var d := Dedup(xs[..|xs| - 1]);
      if xs[|xs| - 1] in d then d else d + [xs[|xs| - 1]]
  }

  /** When every key is a field key, the prefixes are the counters written
      in decimal, in order of first appearance. */
  lemma {:induction false} LabelsOfFieldKeys<T>(entries: seq<Entry<T>>, indices: seq<nat>, names: seq<string>)
    requires |indices| == |entries| == |names|
    requires forall k :: 0 <= k < |entries| ==> entries[k].key == FieldKey(indices[k], names[k])
    ensures |Labels(entries)| == |Dedup(indices)|
    ensures forall a :: 0 <= a < |Labels(entries)| ==> Labels(entries)[a] == NatToString(Dedup(indices)[a])
  {
    if entries != [] {
      var n := |entries| - 1;
      LabelsOfFieldKeys(entries[..n], indices[..n], names[..n]);
      var ls := Labels(entries[..n]);
      var d := Dedup(indices[..n]);
      FieldKeyRoundTrip(indices[n], names[n]);
      var l := NatToString(indices[n]);
      assert l in ls <==> indices[n] in d by {
        if l in ls {
          var a :| 0 <= a < |ls| && ls[a] == l;
          NatToStringInjective(d[a], indices[n]);
        }
        if indices[n] in d {
          var a :| 0 <= a < |d| && d[a] == indices[n];
          assert ls[a] == l;
        }
      }
    }
  }

  /** Counters that never decrease give strictly increasing distinct
      counters. */
  lemma {:induction false} DedupAscending(xs: seq<nat>)
    requires forall k, l :: 0 <= k <= l < |xs| ==> xs[k] <= xs[l]
    ensures forall a, b :: 0 <= a < b < |Dedup(xs)| ==> Dedup(xs)[a] < Dedup(xs)[b]
    ensures forall a :: 0 <= a < |Dedup(xs)| ==> Dedup(xs)[a] in xs
  {
    if xs != [] {
      var n := |xs| - 1;
      DedupAscending(xs[..n]);
      var d := Dedup(xs[..n]);
      forall a | 0 <= a < |d|
        ensures d[a] < xs[n] || d[a] == xs[n]
      {
        var k :| 0 <= k < n && xs[..n][k] == d[a];
        assert xs[k] <= xs[n];
      }
    }
  }
}
