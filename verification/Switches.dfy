/** Switch statements: the case list, and the buckets its entries are grouped into. */
module Switches {

  /** No value comes before a smaller one. */
  ghost predicate Ascending(v: seq<int>) {
    forall i: nat, j: nat {:trigger InOrder(v, i, j)} :: i < j < |v| ==> InOrder(v, i, j)
  }

  predicate InOrder(v: seq<int>, i: nat, j: nat)
    requires i < |v| && j < |v|
  {
    v[i] <= v[j]
  }

  ghost predicate StrictlyAscending(v: seq<int>) {
    forall i: nat, j: nat {:trigger InOrder(v, i, j)} :: i < j < |v| ==> InOrder(v, i, j) && v[i] != v[j]
  }

  lemma SameOrder(v: seq<int>, i: nat, j: nat)
    requires StrictlyAscending(v) && i < |v| && j < |v|
    ensures i < j <==> v[i] < v[j]
    ensures i == j <==> v[i] == v[j]
  {
    assert i < j ==> InOrder(v, i, j);
    assert j < i ==> InOrder(v, j, i);
  }

  /** w is s with x put in at position k. */
  ghost predicate IsInsertion(w: seq<int>, s: seq<int>, k: nat, x: int) {
    && k <= |s| && |w| == |s| + 1 && w[k] == x
    && (forall i: nat {:trigger w[i]} :: i < k ==> w[i] == s[i])
    && (forall i: nat {:trigger w[i]} :: k < i < |w| ==> w[i] == s[i - 1])
  }

  class CaseList {
    var values: array<int>
    var labels: array<nat>
    var ncases: nat

    ghost predicate Valid()
      reads this
    {
      0 < values.Length == labels.Length && ncases <= values.Length
    }

    ghost function Values(): seq<int>
      requires Valid()
      reads this, values
    {
      values[..ncases]
    }

    ghost function Labels(): seq<nat>
      requires Valid()
      reads this, labels
    {
      labels[..ncases]
    }

    constructor (size: nat)
      requires 0 < size
      ensures Valid() && Values() == [] && Labels() == [] && fresh(values) && fresh(labels)
    {
      values, labels := new int[size], new nat[size];
      ncases := 0;
    }

    /** Make room for one more case. */
    method Reserve()
      requires Valid()
      modifies this`values, this`labels
      ensures Valid() && ncases == old(ncases) < values.Length
      ensures Values() == old(Values()) && Labels() == old(Labels())
      ensures values == old(values) || fresh(values)
      ensures labels == old(labels) || fresh(labels)
    {
      if ncases >= values.Length {
        var vals, labs := new int[2 * values.Length], new nat[2 * values.Length];
        for k := 0 to ncases
          modifies vals, labs
          invariant vals[..k] == values[..k] && labs[..k] == labels[..k]
        {
          vals[k], labs[k] := values[k], labels[k];
        }
        values, labels := vals, labs;
      }
    }

    /** Make a gap in front of the cases that are not smaller. */
    method Shift(val: int) returns (k: nat)
      requires Valid() && ncases < values.Length
      modifies values, labels
      ensures k <= ncases && (k < ncases ==> values[k] == old(values[k]) >= val)
      ensures k > 0 ==> old(values[k - 1]) < val
      ensures forall i: nat :: i <= ncases && i != k ==>
        values[i] == if i < k then old(values[i]) else old(values[i - 1])
      ensures forall i: nat :: i <= ncases && i != k ==>
        labels[i] == if i < k then old(labels[i]) else old(labels[i - 1])
    {
      k := ncases;
      while k > 0 && values[k - 1] >= val
        invariant k <= ncases && (k < ncases ==> values[k] == old(values[k]) >= val)
        invariant forall i: nat :: i <= ncases && i != k ==>
          values[i] == if i < k then old(values[i]) else old(values[i - 1])
        invariant forall i: nat :: i <= ncases && i != k ==>
          labels[i] == if i < k then old(labels[i]) else old(labels[i - 1])
      {
        values[k] := values[k - 1];
        labels[k] := labels[k - 1];
        k := k - 1;
      }
    }

    /** Put a case into its place, when there is room for it. */
    method Place(val: int, lab: nat) returns (duplicate: bool, at: nat)
      requires Valid() && ncases < values.Length
      modifies this`ncases, values, labels
      ensures Valid() && IsInsertion(Values(), old(Values()), at, val) && IsInsertion(Labels(), old(Labels()), at, lab)
      ensures at > 0 ==> old(Values())[at - 1] < val
      ensures at < |old(Values())| ==> old(Values())[at] >= val
      ensures duplicate <==> at < |old(Values())| && old(Values())[at] == val
    {
      at := Shift(val);
      duplicate := at < ncases && values[at] == val;
      values[at], labels[at] := val, lab;
      ncases := ncases + 1;
      assert forall i: nat :: i < ncases ==> Values()[i] == values[i] && Labels()[i] == labels[i];
    }

    /** Enter a case, behind the smaller ones. Reports a duplicate. */
    method AddCase(val: int, lab: nat) returns (duplicate: bool, ghost at: nat)
      requires Valid() && Ascending(Values())
      modifies this, values, labels
      ensures Valid() && Ascending(Values())
      ensures IsInsertion(Values(), old(Values()), at, val) && IsInsertion(Labels(), old(Labels()), at, lab)
      ensures duplicate <==> val in old(Values())
      ensures StrictlyAscending(old(Values())) && !duplicate ==> StrictlyAscending(Values())
      ensures values == old(values) || fresh(values)
      ensures labels == old(labels) || fresh(labels)
    {
      Reserve();
      duplicate, at := Place(val, lab);
      InsertAscending(old(Values()), at, val, Values());
    }
  }

  /** A value put in behind the smaller ones keeps the order, and is a duplicate exactly when it
      equals the next one. */
  lemma InsertAscending(v: seq<int>, k: nat, val: int, w: seq<int>)
    requires Ascending(v) && IsInsertion(w, v, k, val) && (k > 0 ==> v[k - 1] < val) && (k < |v| ==> v[k] >= val)
    ensures Ascending(w)
    ensures val in v <==> k < |v| && v[k] == val
    ensures StrictlyAscending(v) && val !in v ==> StrictlyAscending(w)
  {
    forall i: nat | i < |v| ensures if i < k then v[i] < val else v[i] >= val {
      assert i < k - 1 ==> InOrder(v, i, k - 1);
      assert k < i ==> InOrder(v, k, i);
    }
    forall i: nat, j: nat | i < j < |w|
      ensures InOrder(w, i, j) && (StrictlyAscending(v) && val !in v ==> w[i] != w[j]) {
      assert w[i] == if i < k then v[i] else if i == k then val else v[i - 1];
      assert w[j] == if j < k then v[j] else if j == k then val else v[j - 1];
      if i != k && j != k {
        assert InOrder(v, if i < k then i else i - 1, if j < k then j else j - 1);
      }
    }
    if val in v {
      var i: nat :| i < |v| && v[i] == val;
      assert k < i ==> InOrder(v, k, i);
    }
  }
}
