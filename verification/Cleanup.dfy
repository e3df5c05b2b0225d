/** The code list with its labels, and the clean-up of jumps and labels while it grows. */
module Cleanup {
  import opened CodeList

  // ----- Equated labels -----

  /** rep follows the equated labels to their ends; dist is the way there, so there are no cycles. */
  ghost predicate Equates(eq: map<nat, nat>, rep: nat -> nat, dist: nat -> nat) {
    && (forall l: nat {:trigger rep(l)} :: l !in eq ==> rep(l) == l)
    && (forall l: nat {:trigger l in eq} :: l in eq ==> rep(l) == rep(eq[l]) && dist(eq[l]) < dist(l))
    && (forall l: nat {:trigger rep(l)} :: rep(l) !in eq)
  }

  /** Label x is met on the way from l. */
  ghost predicate OnWay(eq: map<nat, nat>, rep: nat -> nat, dist: nat -> nat, x: nat, l: nat)
    requires Equates(eq, rep, dist)
    decreases dist(l)
  {
    l == x || (l in eq && OnWay(eq, rep, dist, x, eq[l]))
  }

  /** A label that is not equated is met exactly when it is the representative. */
  lemma {:induction false} OnWayIsRep(eq: map<nat, nat>, rep: nat -> nat, dist: nat -> nat, x: nat, l: nat)
    requires Equates(eq, rep, dist) && x !in eq
    ensures OnWay(eq, rep, dist, x, l) <==> rep(l) == x
    decreases dist(l)
  {
    if l in eq {
      OnWayIsRep(eq, rep, dist, x, eq[l]);
    }
  }

  /** Equating a label that represents itself with one that it does not represent makes no cycle. */
  lemma EquateKeeps(eq: map<nat, nat>, rep: nat -> nat, dist: nat -> nat, x: nat, y: nat) returns (dist': nat -> nat)
    requires Equates(eq, rep, dist) && x !in eq && rep(y) != x
    ensures Equates(eq[x := y], Equate(rep, x, y), dist')
  {
    var far := dist(y) + 1;
    dist' := (l: nat) => if rep(l) == x then dist(l) + far else dist(l);
    var eq', rep' := eq[x := y], Equate(rep, x, y);
    forall l: nat | l in eq' ensures rep'(l) == rep'(eq'[l]) && dist'(eq'[l]) < dist'(l) {
      if l != x {
        assert l in eq;
      }
    }
  }

  // ----- Edits of an unfinished list -----

  /** The labels that more defines are not defined in the list so far. */
  ghost predicate Fresh(naive: seq<Item>, more: seq<Item>) {
    forall l: nat {:trigger Label(l)} :: Label(l) in more ==> Label(l) !in naive
  }

  /** However the list goes on, it behaves like the naive one, from the start and from every
      position behind the part written so far. */
  ghost predicate Agrees(naive: seq<Item>, items: seq<Item>, rep: nat -> nat, more: seq<Item>) {
    && Equivalent(Program(naive + more, Own()), 0, Program(items + more, rep), 0)
    && forall i: nat {:trigger AgreesBehind(naive, items, rep, more, i)} ::
       i <= |more| ==> AgreesBehind(naive, items, rep, more, i)
  }

  ghost predicate AgreesBehind(naive: seq<Item>, items: seq<Item>, rep: nat -> nat, more: seq<Item>, i: nat) {
    Equivalent(Program(naive + more, Own()), |naive| + i, Program(items + more, rep), |items| + i)
  }

  ghost predicate AlwaysAgrees(naive: seq<Item>, items: seq<Item>, rep: nat -> nat) {
    forall more: seq<Item> {:trigger Agrees(naive, items, rep, more)} ::
      Fresh(naive, more) ==> Agrees(naive, items, rep, more)
  }

  lemma Chain(p: Program, a: nat, q: Program, b: nat, r: Program, c: nat)
    requires Equivalent(p, a, q, b) && Equivalent(q, b, r, c)
    ensures Equivalent(p, a, r, c)
  {
    forall t: seq<Event> ensures Produces(p, a, t) <==> Produces(r, c, t) {
      assert Produces(p, a, t) <==> Produces(q, b, t);
    }
  }

  /** Writing the same items to both lists. */
  lemma AppendAgrees(naive: seq<Item>, items: seq<Item>, rep: nat -> nat, added: seq<Item>)
    requires AlwaysAgrees(naive, items, rep) && Fresh(naive, added)
    ensures AlwaysAgrees(naive + added, items + added, rep)
  {
    forall more: seq<Item> | Fresh(naive + added, more) ensures Agrees(naive + added, items + added, rep, more) {
      assert forall l: nat :: Label(l) in added + more ==> Label(l) in added || Label(l) in more;
      assert forall l: nat :: Label(l) in naive ==> Label(l) in naive + added;
      assert Fresh(naive, added + more);
      assert Agrees(naive, items, rep, added + more);
      assert naive + added + more == naive + (added + more) && items + added + more == items + (added + more);
      forall i: nat | i <= |more| ensures AgreesBehind(naive + added, items + added, rep, more, i) {
        assert AgreesBehind(naive, items, rep, added + more, |added| + i);
      }
    }
  }

  /** Deleting an item, when that is right however the list goes on. */
  lemma DeleteAgrees(naive: seq<Item>, items: seq<Item>, rep: nat -> nat, d: nat, rep': nat -> nat)
    requires AlwaysAgrees(naive, items, rep) && d < |items|
    requires forall more: seq<Item> {:trigger Fresh(naive, more)} ::
      Fresh(naive, more) ==> Deletes(items + more, rep, d, rep', |items|)
    ensures AlwaysAgrees(naive, Without(items, d), rep')
  {
    forall more: seq<Item> | Fresh(naive, more) ensures Agrees(naive, Without(items, d), rep', more) {
      assert Agrees(naive, items, rep, more);
      var n, p, q := Program(naive + more, Own()), Program(items + more, rep), Program(Without(items, d) + more, rep');
      assert Without(items + more, d) == Without(items, d) + more;
      assert Deletes(items + more, rep, d, rep', |items|);
      assert EquivalentAt(items + more, rep, d, rep', 0);
      Chain(n, 0, p, 0, q, 0);
      forall i: nat | i <= |more| ensures AgreesBehind(naive, Without(items, d), rep', more, i) {
        assert AgreesBehind(naive, items, rep, more, i);
        assert EquivalentAt(items + more, rep, d, rep', |items| + i);
        Chain(n, |naive| + i, p, |items| + i, q, |Without(items, d)| + i);
      }
    }
  }

  ghost predicate EquivalentAt(items: seq<Item>, rep: nat -> nat, d: nat, rep': nat -> nat, a: nat)
    requires d < |items|
  {
    Equivalent(Program(items, rep), a, Program(Without(items, d), rep'), Shift(d, a))
  }

  /** Without the item at d the list behaves as before, from the start and from end on. */
  ghost predicate Deletes(items: seq<Item>, rep: nat -> nat, d: nat, rep': nat -> nat, end: nat) {
    && d < |items|
    && EquivalentAt(items, rep, d, rep', 0)
    && forall a: nat {:trigger EquivalentAt(items, rep, d, rep', a)} ::
       end <= a ==> EquivalentAt(items, rep, d, rep', a)
  }

  // ----- The edits that are made at the end of the list -----

  /** A listed label is listed once, is not equated, and has been defined; so has every equated
      label. */
  ghost predicate Labels(naive: seq<Item>, items: seq<Item>, eq: map<nat, nat>) {
    && (forall i: nat {:trigger Listed(naive, items, eq, i)} :: i < |items| ==> Listed(naive, items, eq, i))
    && (forall l: nat {:trigger l in eq} :: l in eq ==> Label(l) in naive)
  }

  ghost predicate Listed(naive: seq<Item>, items: seq<Item>, eq: map<nat, nat>, i: nat)
    requires i < |items|
  {
    items[i].Label? ==>
      && items[i].l !in eq && items[i] in naive
      && forall j: nat :: j < |items| && j != i ==> items[j] != items[i]
  }

  lemma LabelsAppend(naive: seq<Item>, items: seq<Item>, eq: map<nat, nat>, item: Item)
    requires Labels(naive, items, eq) && (item.Label? ==> item !in naive)
    ensures Labels(naive + [item], items + [item], eq)
  {
    forall i: nat | i <= |items| ensures Listed(naive + [item], items + [item], eq, i) {
      assert i < |items| ==> Listed(naive, items, eq, i);
      if item.Label? && i == |items| {
        forall j: nat | j < |items| ensures items[j] != item {
          assert Listed(naive, items, eq, j);
        }
      }
    }
  }

  lemma LabelsDelete(naive: seq<Item>, items: seq<Item>, eq: map<nat, nat>, d: nat)
    requires Labels(naive, items, eq) && d < |items|
    ensures Labels(naive, Without(items, d), eq)
  {
    forall i: nat | i < |items| - 1 ensures Listed(naive, Without(items, d), eq, i) {
      assert Listed(naive, items, eq, if i < d then i else i + 1);
    }
  }

  lemma LabelsEquate(naive: seq<Item>, items: seq<Item>, eq: map<nat, nat>, d: nat, y: nat)
    requires Labels(naive, items, eq) && d < |items| && items[d].Label?
    ensures Labels(naive, Without(items, d), eq[items[d].l := y])
  {
    assert Listed(naive, items, eq, d);
    var eq' := eq[items[d].l := y];
    forall i: nat | i < |items| - 1 ensures Listed(naive, Without(items, d), eq', i) {
      assert Listed(naive, items, eq, if i < d then i else i + 1);
    }
  }

  /** Behind what is written so far, there is no second definition of a listed label. */
  lemma OwnLabelInList(naive: seq<Item>, items: seq<Item>, eq: map<nat, nat>, rep: nat -> nat, dist: nat -> nat,
      more: seq<Item>, d: nat)
    requires Labels(naive, items, eq) && Equates(eq, rep, dist) && Fresh(naive, more) && d < |items| && items[d].Label?
    ensures OwnLabel(Program(items + more, rep), d, items[d].l) && Program(items + more, rep).Find(items[d].l) == d
  {
    var p := Program(items + more, rep);
    assert Listed(naive, items, eq, d);
    forall i: nat | i < |p.items| && i != d ensures p.items[i] != items[d] {
      if i >= |items| {
        assert p.items[i] == more[i - |items|];
      }
    }
    FoundAt(p.items, items[d].l, d);
  }

  /** The list ends with a label, and before it there is a jump to it, with nothing but marks and
      labels between: the jump can go. */
  lemma DropJump(naive: seq<Item>, items: seq<Item>, eq: map<nat, nat>, rep: nat -> nat, dist: nat -> nat, d: nat)
    requires AlwaysAgrees(naive, items, rep) && Labels(naive, items, eq) && Equates(eq, rep, dist)
    requires d + 1 < |items| && items[|items| - 1].Label? && items[d] == Jump(items[|items| - 1].l)
    requires forall i: nat :: d < i < |items| ==> items[i].Falls()
    ensures AlwaysAgrees(naive, Without(items, d), rep)
  {
    forall more: seq<Item> | Fresh(naive, more) ensures Deletes(items + more, rep, d, rep, |items|) {
      OwnLabelInList(naive, items, eq, rep, dist, more, |items| - 1);
      var p := Program(items + more, rep);
      assert JumpsNext(p, d, |items| - 1);
      forall a: nat ensures EquivalentAt(items + more, rep, d, rep, a) {
        JumpGone(p, d, |items| - 1, a);
      }
    }
    DeleteAgrees(naive, items, rep, d, rep);
  }

  /** The list ends with a jump, and before it there is another transfer, with nothing but marks
      between: the jump at the end can go. */
  lemma DropLast(naive: seq<Item>, items: seq<Item>, rep: nat -> nat, lo: nat)
    requires AlwaysAgrees(naive, items, rep) && lo + 1 < |items| && items[|items| - 1].Jump?
    requires (items[lo].Jump? || items[lo].Switch?) && forall i: nat :: lo < i < |items| - 1 ==> items[i].Mark?
    ensures AlwaysAgrees(naive, Without(items, |items| - 1), rep)
  {
    var d := |items| - 1;
    forall more: seq<Item> | Fresh(naive, more) ensures Deletes(items + more, rep, d, rep, |items|) {
      var p := Program(items + more, rep);
      assert Unreached(p, lo, d);
      forall a: nat | a == 0 || |items| <= a ensures EquivalentAt(items + more, rep, d, rep, a) {
        UnreachedGone(p, lo, d, a);
      }
    }
    DeleteAgrees(naive, items, rep, d, rep);
  }

  /** From the label at d control goes on to label y. */
  ghost predicate GoesOn(items: seq<Item>, d: nat, y: nat) {
    && d + 1 < |items|
    && (forall i: nat :: d < i < |items| - 1 ==> items[i].Mark?)
    && (items[|items| - 1] == Jump(y) || items[|items| - 1] == Label(y))
  }

  lemma GoesOnLeads(naive: seq<Item>, items: seq<Item>, eq: map<nat, nat>, rep: nat -> nat, dist: nat -> nat, d: nat,
      y: nat, more: seq<Item>) returns (k: nat)
    requires Labels(naive, items, eq) && Equates(eq, rep, dist) && Fresh(naive, more)
    requires GoesOn(items, d, y) && items[d].Label?
    ensures Program(items + more, rep).Leads(d, Program(items + more, rep).Find(y), k)
  {
    var p, last := Program(items + more, rep), |items| - 1;
    FallThrough(p, d, last);
    k := last - d;
    if items[last].Label? {
      OwnLabelInList(naive, items, eq, rep, dist, more, last);
    } else {
      assert p.Leads(p.Find(y), p.Find(y), 0) && p.Leads(last, p.Find(y), 1);
      LeadsOn(p, d, last, p.Find(y), last - d, 1);
      k := k + 1;
    }
  }

  /** A label from which control goes on to y can be equated with y, and go. */
  lemma DropLabel(naive: seq<Item>, items: seq<Item>, eq: map<nat, nat>, rep: nat -> nat, dist: nat -> nat, d: nat,
      y: nat)
    requires AlwaysAgrees(naive, items, rep) && Labels(naive, items, eq) && Equates(eq, rep, dist)
    requires GoesOn(items, d, y) && items[d].Label? && rep(y) != items[d].l
    ensures AlwaysAgrees(naive, Without(items, d), Equate(rep, items[d].l, y))
  {
    var x := items[d].l;
    forall more: seq<Item> | Fresh(naive, more) ensures Deletes(items + more, rep, d, Equate(rep, x, y), |items|) {
      var p := Program(items + more, rep);
      OwnLabelInList(naive, items, eq, rep, dist, more, d);
      var k := GoesOnLeads(naive, items, eq, rep, dist, d, y, more);
      forall a: nat ensures EquivalentAt(items + more, rep, d, Equate(rep, x, y), a) {
        LabelGone(p, d, x, y, k, a);
      }
    }
    DeleteAgrees(naive, items, rep, d, Equate(rep, x, y));
  }

  /** The list ends with two labels: the second can be equated with the first, and go. */
  lemma DropSecondLabel(naive: seq<Item>, items: seq<Item>, eq: map<nat, nat>, rep: nat -> nat, dist: nat -> nat,
      d: nat)
    requires AlwaysAgrees(naive, items, rep) && Labels(naive, items, eq) && Equates(eq, rep, dist)
    requires 0 < d < |items| && items[d].Label? && items[d - 1].Label?
    ensures AlwaysAgrees(naive, Without(items, d), Equate(rep, items[d].l, items[d - 1].l))
  {
    var x, y := items[d].l, items[d - 1].l;
    assert Listed(naive, items, eq, d) && Listed(naive, items, eq, d - 1);
    forall more: seq<Item> | Fresh(naive, more) ensures Deletes(items + more, rep, d, Equate(rep, x, y), |items|) {
      var p := Program(items + more, rep);
      OwnLabelInList(naive, items, eq, rep, dist, more, d);
      OwnLabelInList(naive, items, eq, rep, dist, more, d - 1);
      forall a: nat ensures EquivalentAt(items + more, rep, d, Equate(rep, x, y), a) {
        SecondLabelGone(p, d, x, y, a);
      }
    }
    DeleteAgrees(naive, items, rep, d, Equate(rep, x, y));
  }
}
