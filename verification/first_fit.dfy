/** The greedy matching shared by `AbstractTestGroup::assert` and
    `AbstractTestCollection::assert`.

    The groups are visited in order.  Each group claims the first element
    still in the working copy of the recorded list that all its members
    accept, and that element is removed from the working copy.  Elements
    are named by their position in the recorded list; the working copy is
    the ascending list of the positions not claimed yet. */
module FirstFit {
  import opened Php
  import opened TestConstraints
  import opened TestConstraintGroups

  /** The positions of a fresh working copy: `0, 1, …, n - 1`. */
  function Range(n: nat): (r: seq<nat>)
    ensures |r| == n
    ensures forall i :: 0 <= i < n ==> r[i] == i
  {
    seq(n, i requires 0 <= i < n => i)
  }

  predicate InRange(rest: seq<nat>, n: nat)
  {
    forall k :: 0 <= k < |rest| ==> rest[k] < n
  }

  predicate Ascending(rest: seq<nat>)
  {
    forall k, l :: 0 <= k < l < |rest| ==> rest[k] < rest[l]
  }

  /** The inner `foreach`: the place, in the working copy, of the first
      element the group accepts. */
  function FirstAccepted<T>(cs: seq<TestConstraint<T>>, elements: seq<T>, rest: seq<nat>): (p: Option<nat>)
    requires InRange(rest, |elements|)
    ensures p.Some? ==> p.value < |rest|
  {
    if rest == [] then None
    else if AllAccept(cs, elements[rest[0]]) then Some(0)
    else match FirstAccepted(cs, elements, rest[1..])
      case None => None
      case Some(p) => Some(p + 1)
  }

  /** `FirstAccepted` finds the first remaining element the group accepts,
      and finds nothing only when the group accepts none of them. */
  lemma {:induction false} FirstAcceptedSpec<T>(cs: seq<TestConstraint<T>>, elements: seq<T>, rest: seq<nat>)
    requires InRange(rest, |elements|)
    ensures var p := FirstAccepted(cs, elements, rest);
      && (p.Some? ==> p.value < |rest| && AllAccept(cs, elements[rest[p.value]]))
      && (p.Some? ==> forall q :: 0 <= q < p.value ==> !AllAccept(cs, elements[rest[q]]))
      && (p.None? ==> forall q :: 0 <= q < |rest| ==> !AllAccept(cs, elements[rest[q]]))
  {
    if rest != [] && !AllAccept(cs, elements[rest[0]]) {
      var tail := rest[1..];
      FirstAcceptedSpec(cs, elements, tail);
      forall q | 1 <= q < |rest|
        ensures rest[q] == tail[q - 1]
      {
      }
    }
  }

  /** What the matching decided: the element each group claimed, if any,
      and the working copy left at the end. */
  datatype Matching = Matching(claims: seq<Option<nat>>, rest: seq<nat>)

  /** The outer `foreach` over the groups. */
  function Match<T>(groups: seq<seq<TestConstraint<T>>>, elements: seq<T>): (m: Matching)
    ensures |m.claims| == |groups|
    ensures InRange(m.rest, |elements|)
  {
    if groups == [] then Matching([], Range(|elements|))
    else
      var m := Match(groups[..|groups| - 1], elements);
      match FirstAccepted(groups[|groups| - 1], elements, m.rest)
      case None => Matching(m.claims + [None], m.rest)
      case Some(p) => Matching(m.claims + [Some(m.rest[p])], m.rest[..p] + m.rest[p + 1..])
  }

  /** Element `e` was claimed by one of the first `i` groups. */
  predicate ClaimedBefore(claims: seq<Option<nat>>, i: nat, e: nat)
  {
    exists j :: 0 <= j < i && j < |claims| && claims[j] == Some(e)
  }

  /** A fresh working copy is ascending and holds every position. */
  lemma RangeSpec(n: nat)
    ensures Ascending(Range(n))
    ensures forall e :: 0 <= e < n ==> e in Range(n)
  {
    forall e | 0 <= e < n
      ensures e in Range(n)
    {
      assert Range(n)[e] == e;
    }
  }

  /** Removing the claimed element keeps the working copy ascending and
      drops exactly that element. */
  lemma RemoveAt(rest: seq<nat>, p: nat)
    requires p < |rest| && Ascending(rest)
    ensures var r := rest[..p] + rest[p + 1..];
      && |r| == |rest| - 1 && Ascending(r)
      && (forall e :: e in r <==> e in rest && e != rest[p])
  {
    var r := rest[..p] + rest[p + 1..];
    forall e
      ensures e in r <==> e in rest && e != rest[p]
    {
      if e in r {
        var k :| 0 <= k < |r| && r[k] == e;
        if k < p {
          assert rest[k] == e;
        } else {
          assert rest[k + 1] == e;
        }
      }
      if e in rest && e != rest[p] {
        var k :| 0 <= k < |rest| && rest[k] == e;
        if k < p {
          assert r[k] == e;
        } else {
          assert r[k - 1] == e;
        }
      }
    }
  }

  /** One more claim: the first `i` groups claimed the same elements as
      before, and all of them together also claimed the new one. */
  lemma ClaimedSnoc(claims: seq<Option<nat>>, x: Option<nat>, e: nat)
    ensures forall i :: 0 <= i <= |claims| ==> (ClaimedBefore(claims + [x], i, e) <==> ClaimedBefore(claims, i, e))
    ensures ClaimedBefore(claims + [x], |claims| + 1, e) <==> ClaimedBefore(claims, |claims|, e) || x == Some(e)
  {
    var c := claims + [x];
    forall i | 0 <= i <= |claims|
      ensures ClaimedBefore(c, i, e) <==> ClaimedBefore(claims, i, e)
    {
      if ClaimedBefore(c, i, e) {
        var j :| 0 <= j < i && j < |c| && c[j] == Some(e);
        assert claims[j] == Some(e);
      }
      if ClaimedBefore(claims, i, e) {
        var j :| 0 <= j < i && j < |claims| && claims[j] == Some(e);
        assert c[j] == Some(e);
      }
    }
    if x == Some(e) {
      assert c[|claims|] == Some(e);
    }
  }

  /** One step of `Match`: the last group adds one claim, and removes the
      claimed element from the working copy. */
  lemma MatchStep<T>(groups: seq<seq<TestConstraint<T>>>, elements: seq<T>)
    requires groups != []
    ensures var n := |groups| - 1;
      var m0 := Match(groups[..n], elements);
      var m := Match(groups, elements);
      && m.claims[..n] == m0.claims
      && (m.claims[n].None? ==> m.rest == m0.rest && FirstAccepted(groups[n], elements, m0.rest).None?)
      && (m.claims[n].Some? ==>
           var p := FirstAccepted(groups[n], elements, m0.rest);
           p.Some? && m.claims[n] == Some(m0.rest[p.value]) && m.rest == m0.rest[..p.value] + m0.rest[p.value + 1..])
  {
  }

  /** The working copy is ascending and holds exactly the elements no group
      has claimed. */
  lemma {:induction false} MatchRest<T>(groups: seq<seq<TestConstraint<T>>>, elements: seq<T>)
    ensures var m := Match(groups, elements);
      && Ascending(m.rest)
      && (forall e :: 0 <= e < |elements| ==> (e in m.rest <==> !ClaimedBefore(m.claims, |groups|, e)))
  {
    var m := Match(groups, elements);
    if groups == [] {
      RangeSpec(|elements|);
    } else {
      var n := |groups| - 1;
      var m0 := Match(groups[..n], elements);
      var p := FirstAccepted(groups[n], elements, m0.rest);
      MatchRest(groups[..n], elements);
      MatchNext(groups, n, elements, m0.claims, m0.rest, p);
      assert groups[..n + 1] == groups;
      if p.Some? {
        var x := Some(m0.rest[p.value]);
        assert m == Matching(m0.claims + [x], m0.rest[..p.value] + m0.rest[p.value + 1..]);
        RemoveAt(m0.rest, p.value);
        forall e | 0 <= e < |elements|
          ensures e in m.rest <==> !ClaimedBefore(m.claims, |groups|, e)
        {
          ClaimedSnoc(m0.claims, x, e);
        }
      } else {
        assert m == Matching(m0.claims + [None], m0.rest);
        forall e | 0 <= e < |elements|
          ensures e in m.rest <==> !ClaimedBefore(m.claims, |groups|, e)
        {
          ClaimedSnoc(m0.claims, None, e);
        }
      }
    }
  }

  /** Every claimed element is accepted by the group that claimed it. */
  lemma {:induction false} MatchAccepted<T>(groups: seq<seq<TestConstraint<T>>>, elements: seq<T>)
    ensures var m := Match(groups, elements);
      forall i :: 0 <= i < |groups| && m.claims[i].Some? ==>
        m.claims[i].value < |elements| && AllAccept(groups[i], elements[m.claims[i].value])
  {
    if groups != [] {
      var n := |groups| - 1;
      var init := groups[..n];
      MatchAccepted(init, elements);
      MatchStep(groups, elements);
      var m := Match(groups, elements);
      var m0 := Match(init, elements);
      FirstAcceptedSpec(groups[n], elements, m0.rest);
      forall i | 0 <= i < n
        ensures m.claims[i] == m0.claims[i] && groups[i] == init[i]
      {
        assert m.claims[..n][i] == m.claims[i];
      }
    }
  }

  /** No element is claimed by two groups. */
  lemma {:induction false} MatchInjective<T>(groups: seq<seq<TestConstraint<T>>>, elements: seq<T>)
    ensures var m := Match(groups, elements);
      forall i, j :: 0 <= i < j < |groups| && m.claims[i].Some? ==> m.claims[j] != m.claims[i]
  {
    if groups != [] {
      var n := |groups| - 1;
      var init := groups[..n];
      MatchInjective(init, elements);
      MatchRest(init, elements);
      MatchStep(groups, elements);
      var m := Match(groups, elements);
      var m0 := Match(init, elements);
      forall i | 0 <= i < n
        ensures m.claims[i] == m0.claims[i]
      {
        assert m.claims[..n][i] == m.claims[i];
      }
      if m.claims[n].Some? {
        var e0 := m.claims[n].value;
        var p := FirstAccepted(groups[n], elements, m0.rest).value;
        assert m0.rest[p] == e0;
        forall i | 0 <= i < n && m.claims[i].Some?
          ensures m.claims[i] != m.claims[n]
        {
          if m.claims[i] == Some(e0) {
            assert ClaimedBefore(m0.claims, n, e0);
          }
        }
      }
    }
  }

  /** First fit, for one group `i` and one element `e` the earlier groups
      left: when `i` claimed nothing, or claimed an element after `e`, then
      `i` does not accept `e`. */
  lemma {:induction false} FirstFitAt<T>(groups: seq<seq<TestConstraint<T>>>, elements: seq<T>, i: nat, e: nat)
    requires i < |groups| && e < |elements|
    requires !ClaimedBefore(Match(groups, elements).claims, i, e)
    requires Match(groups, elements).claims[i].None? || e < Match(groups, elements).claims[i].value
    ensures !AllAccept(groups[i], elements[e])
  {
    var n := |groups| - 1;
    var init := groups[..n];
    var m := Match(groups, elements);
    var m0 := Match(init, elements);
    MatchStep(groups, elements);
    var x := m.claims[n];
    assert m.claims == m0.claims + [x];
    ClaimedSnoc(m0.claims, x, e);
    if i < n {
      assert groups[i] == init[i];
      assert m.claims[i] == m0.claims[i];
      assert !ClaimedBefore(m0.claims, i, e);
      FirstFitAt(init, elements, i, e);
    } else {
      assert !ClaimedBefore(m0.claims, n, e);
      MatchRest(init, elements);
      assert e in m0.rest;
      FirstFitLast(groups, elements, e);
    }
  }

  /** `FirstFitAt` for the last group, given that the earlier groups left
      `e` in the working copy. */
  lemma FirstFitLast<T>(groups: seq<seq<TestConstraint<T>>>, elements: seq<T>, e: nat)
    requires groups != [] && e < |elements|
    requires var m0 := Match(groups[..|groups| - 1], elements);
      e in m0.rest && Ascending(m0.rest)
    requires var c := Match(groups, elements).claims[|groups| - 1];
      c.None? || e < c.value
    ensures !AllAccept(groups[|groups| - 1], elements[e])
  {
    var n := |groups| - 1;
    var m0 := Match(groups[..n], elements);
    var cs := groups[n];
    MatchStep(groups, elements);
    var k :| 0 <= k < |m0.rest| && m0.rest[k] == e;
    var p := FirstAccepted(cs, elements, m0.rest);
    FirstAcceptedSpec(cs, elements, m0.rest);
    if p.Some? {
      assert e < m0.rest[p.value];
      assert k < p.value;
    }
    assert !AllAccept(cs, elements[m0.rest[k]]);
  }

  /** First fit: a group claims the smallest element, among those the
      earlier groups left, that it accepts; a group claims nothing only
      when it accepts none of the elements the earlier groups left. */
  lemma MatchFirstFit<T>(groups: seq<seq<TestConstraint<T>>>, elements: seq<T>)
    ensures var m := Match(groups, elements);
      forall i, e :: 0 <= i < |groups| && 0 <= e < |elements| && !ClaimedBefore(m.claims, i, e)
        && (m.claims[i].None? || e < m.claims[i].value)
        ==> !AllAccept(groups[i], elements[e])
  {
    var m := Match(groups, elements);
    forall i, e | 0 <= i < |groups| && 0 <= e < |elements| && !ClaimedBefore(m.claims, i, e) &&
        (m.claims[i].None? || e < m.claims[i].value)
      ensures !AllAccept(groups[i], elements[e])
    {
      FirstFitAt(groups, elements, i, e);
    }
  }

  /** The groups that claimed nothing, in order. */
  function Unmatched(claims: seq<Option<nat>>): seq<nat>
  {
    if claims == [] then []
    else
      var u := Unmatched(claims[..|claims| - 1]);
      if claims[|claims| - 1].None? then u + [|claims| - 1] else u
  }

  /** `Unmatched` lists exactly the groups that claimed nothing, in
      increasing order. */
  lemma {:induction false} UnmatchedSpec(claims: seq<Option<nat>>)
    ensures var u := Unmatched(claims);
      && (forall k :: 0 <= k < |u| ==> u[k] < |claims| && claims[u[k]].None?)
      && (forall i :: 0 <= i < |claims| && claims[i].None? ==> i in u)
      && Ascending(u)
  {
    if claims != [] {
      var init := claims[..|claims| - 1];
      UnmatchedSpec(init);
      forall i | 0 <= i < |claims| - 1
        ensures claims[i] == init[i]
      {
      }
    }
  }

  /** One more group: its index joins the unmatched ones iff it claimed
      nothing. */
  lemma UnmatchedSnoc(claims: seq<Option<nat>>, x: Option<nat>)
    ensures Unmatched(claims + [x]) == Unmatched(claims) + (if x.None? then [|claims|] else [])
  {
    assert (claims + [x])[..|claims|] == claims;
  }

  /** `Match` over the first `g + 1` groups extends `Match` over the first
      `g`: group `g` claims the element at the place `FirstAccepted` finds
      in the working copy the first `g` left, or nothing. */
  lemma MatchNext<T>(groups: seq<seq<TestConstraint<T>>>, g: nat, elements: seq<T>,
                     claims: seq<Option<nat>>, rest: seq<nat>, p: Option<nat>)
    requires g < |groups|
    requires Match(groups[..g], elements) == Matching(claims, rest)
    requires p == FirstAccepted(groups[g], elements, rest)
    ensures p.Some? ==> p.value < |rest|
    ensures p.Some? ==>
      Match(groups[..g + 1], elements) == Matching(claims + [Some(rest[p.value])], rest[..p.value] + rest[p.value + 1..])
    ensures p.None? ==> Match(groups[..g + 1], elements) == Matching(claims + [None], rest)
  {
    var gs := groups[..g + 1];
    assert gs[..g] == groups[..g];
    assert gs[g] == groups[g];
    if p.Some? {
      assert Match(gs, elements) == Matching(claims + [Some(rest[p.value])], rest[..p.value] + rest[p.value + 1..]);
    } else {
      assert Match(gs, elements) == Matching(claims + [None], rest);
    }
  }

  /** The result on which both reports are built: no group is left
      unmatched exactly when `Unmatched` is empty. */
  lemma UnmatchedEmptyIff(claims: seq<Option<nat>>)
    ensures Unmatched(claims) == [] <==> forall i :: 0 <= i < |claims| ==> claims[i].Some?
  {
    UnmatchedSpec(claims);
    if exists i :: 0 <= i < |claims| && claims[i].None? {
      var i :| 0 <= i < |claims| && claims[i].None?;
      assert i in Unmatched(claims);
    }
  }

  /** Greedy, not optimal: with a first group that accepts both elements
      and a second that accepts only the first element, the first group
      takes the first element and the second group stays unmatched,
      although giving each group a different element was possible. */
  lemma GreedyIsNotOptimal()
    ensures var wide := [TestConstraint("any", (x: int) => true, "is anything")];
      var narrow := [TestConstraint("zero", (x: int) => x == 0, "is zero")];
      var m := Match([wide, narrow], [0, 1]);
      && m.claims == [Some(0), None]
      && m.rest == [1]
      && AllAccept(wide, 1) && AllAccept(narrow, 0)
  {
    var wide := [TestConstraint("any", (x: int) => true, "is anything")];
    var narrow := [TestConstraint("zero", (x: int) => x == 0, "is zero")];
    var elements := [0, 1];
    assert [wide, narrow][..1] == [wide];
    assert [wide][..0] == [];
    assert Range(2) == [0, 1];
    assert Match([wide][..0], elements) == Matching([], [0, 1]);
    assert FirstAccepted(wide, elements, [0, 1]) == Some(0);
    assert [0, 1][..0] + [0, 1][1..] == [1];
    assert Match([wide], elements) == Matching([Some(0)], [1]);
    assert FirstAccepted(narrow, elements, [1]) == None;
  }
}
