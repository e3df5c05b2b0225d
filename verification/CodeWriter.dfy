/** Writing the code list: labels, branches, and everything else. */
module CodeWriter {
  import opened CodeList
  import opened Cleanup
  import opened Tidiness

  class Writer {
    var items: seq<Item>
    var equatedTo: map<nat, nat>
    ghost var naive: seq<Item>      // the list without any clean-up
    ghost var rep: nat -> nat
    ghost var dist: nat -> nat

    ghost predicate Valid()
      reads this
    {
      && Equates(equatedTo, rep, dist)
      && Labels(naive, items, equatedTo)
      && AlwaysAgrees(naive, items, rep)
      && PartOf(items, naive)
    }

    constructor ()
      ensures Valid() && naive == [] && items == [] && Clean(items, rep)
    {
      items, equatedTo := [], map[];
      naive, rep, dist := [], Own(), Own();
      new;
      forall more: seq<Item> ensures Agrees(naive, items, rep, more) {
      }
      assert From([], items, naive);
    }

    /** The label that stands for l. */
    method Equated(l: nat) returns (r: nat)
      requires Equates(equatedTo, rep, dist)
      ensures r == rep(l) && r !in equatedTo
    {
      r := l;
      while r in equatedTo
        invariant rep(r) == rep(l)
        decreases dist(r)
      {
        r := equatedTo[r];
      }
    }

    /** Whether the label x is dst, or dst is equated with it. */
    method Equal(x: nat, dst: nat) returns (b: bool)
      requires Equates(equatedTo, rep, dist)
      ensures b <==> OnWay(equatedTo, rep, dist, x, dst)
    {
      var l := dst;
      while true
        invariant OnWay(equatedTo, rep, dist, x, dst) <==> OnWay(equatedTo, rep, dist, x, l)
        decreases dist(l)
      {
        if x == l {
          return true;
        }
        if l !in equatedTo {
          return false;
        }
        l := equatedTo[l];
      }
    }

    /** Equate a label with another. */
    method EquateLabel(x: nat, y: nat)
      requires Equates(equatedTo, rep, dist) && x !in equatedTo && rep(y) != x
      modifies this`equatedTo, this`rep, this`dist
      ensures Equates(equatedTo, rep, dist)
      ensures equatedTo == old(equatedTo)[x := y] && rep == Equate(old(rep), x, y)
    {
      ghost var dist' := EquateKeeps(equatedTo, rep, dist, x, y);
      equatedTo := equatedTo[x := y];
      rep, dist := Equate(rep, x, y), dist';
    }

    method Append(item: Item)
      requires Valid() && (item.Label? ==> item !in naive)
      modifies this`items, this`naive
      ensures Valid() && items == old(items) + [item] && naive == old(naive) + [item]
      ensures old(Clean(items, rep)) && !item.Jump? && !item.Label? ==> Clean(items, rep)
    {
      if Clean(items, rep) && !item.Jump? && !item.Label? {
        CleanAppend(items, rep, item);
      }
      PartAppend(items, naive, item);
      LabelsAppend(naive, items, equatedTo, item);
      AppendAgrees(naive, items, rep, [item]);
      items := items + [item];
      naive := naive + [item];
    }

    /** Define a label: jumps to it that come just before go away. */
    method DefineLabel(lab: nat)
      requires Valid() && Label(lab) !in naive
      modifies this`items, this`naive
      ensures Valid() && naive == old(naive) + [Label(lab)]
      ensures |items| > 0 && items[|items| - 1] == Label(lab)
      ensures exists cp: nat {:trigger FallsFrom(cp)} :: FallsFrom(cp) && (cp > 0 ==> items[cp - 1] != Jump(lab))
      ensures old(Clean(items, rep)) ==> Clean(items, rep)
    {
      Append(Label(lab));
      assert items[..|items| - 1] == old(items);
      var cp: nat := SkipLabels(|items| - 1);
      while cp > 0 && items[cp - 1] == Jump(lab)
        invariant Valid() && naive == old(naive) + [Label(lab)]
        invariant cp < |items| && items[|items| - 1] == Label(lab)
        invariant FallsFrom(cp)
        invariant old(Clean(items, rep)) ==> Clean(items[..|items| - 1], rep)
      {
        DeleteJump(lab, cp - 1);
        cp := SkipLabels(cp - 1);
      }
      if Clean(items[..|items| - 1], rep) {
        CleanLabel(items, rep, cp);
      }
    }

    /** A jump to the label at the end goes, with nothing but labels and marks between. */
    method DeleteJump(lab: nat, d: nat)
      requires Valid() && d + 1 < |items| && items[d] == Jump(lab) && items[|items| - 1] == Label(lab)
      requires forall i: nat :: d < i < |items| ==> items[i].Falls()
      modifies this`items
      ensures Valid() && items == Without(old(items), d)
      ensures old(Clean(items[..|items| - 1], rep)) ==> Clean(items[..|items| - 1], rep)
    {
      assert Without(items, d)[..|items| - 2] == Without(items[..|items| - 1], d);
      if Clean(items[..|items| - 1], rep) {
        CleanDelete(items[..|items| - 1], rep, d);
      }
      PartDelete(items, naive, d);
      DropJump(naive, items, equatedTo, rep, dist, d);
      LabelsDelete(naive, items, equatedTo, d);
      items := Without(items, d);
    }

    /** From cp on there are only marks and labels, and before it there is something else. */
    ghost predicate FallsFrom(cp: nat)
      reads this
    {
      && cp <= |items|
      && (forall i: nat :: cp <= i < |items| ==> items[i].Falls())
      && (cp > 0 ==> !items[cp - 1].Falls())
    }

    /** Go back over marks and labels. */
    method SkipLabels(from: nat) returns (cp: nat)
      requires from <= |items|
      ensures cp <= from && forall i: nat :: cp <= i < from ==> items[i].Falls()
      ensures cp > 0 ==> !items[cp - 1].Falls()
    {
      cp := from;
      while cp > 0 && items[cp - 1].Falls()
        invariant cp <= from && forall i: nat :: cp <= i < from ==> items[i].Falls()
      {
        cp := cp - 1;
      }
    }

    /** Go back over marks. */
    method SkipMarks(from: nat) returns (cp: nat)
      requires from <= |items|
      ensures cp <= from && forall i: nat :: cp <= i < from ==> items[i].Mark?
      ensures cp > 0 ==> !items[cp - 1].Mark?
    {
      cp := from;
      while cp > 0 && items[cp - 1].Mark?
        invariant cp <= from && forall i: nat :: cp <= i < from ==> items[i].Mark?
      {
        cp := cp - 1;
      }
    }

    /** A label from which control goes on to the last item is equated with the label there. */
    method RemoveLabel(d: nat, y: nat)
      requires Valid() && GoesOn(items, d, y) && items[d].Label? && rep(y) != items[d].l
      modifies this`items, this`equatedTo, this`rep, this`dist
      ensures Valid() && items == Without(old(items), d)
      ensures equatedTo == old(equatedTo)[old(items)[d].l := y] && rep == Equate(old(rep), old(items)[d].l, y)
    {
      DropLabel(naive, items, equatedTo, rep, dist, d, y);
      LabelsEquate(naive, items, equatedTo, d, y);
      LabelOnce(naive, items, equatedTo, d);
      PartDelete(items, naive, d);
      EquateLabel(items[d].l, y);
      items := Without(items, d);
    }

    /** The same keeps what stands before the last item clean. */
    method RemoveCleanly(d: nat, y: nat)
      requires Valid() && GoesOn(items, d, y) && items[d].Label? && rep(y) != items[d].l
      modifies this`items, this`equatedTo, this`rep, this`dist
      ensures Valid() && items == Without(old(items), d)
      ensures equatedTo == old(equatedTo)[old(items)[d].l := y]
      ensures old(Clean(items[..|items| - 1], rep)) ==> Clean(items[..|items| - 1], rep)
    {
      LabelOnce(naive, items, equatedTo, d);
      if Clean(items[..|items| - 1], rep) {
        CleanRemove(items, rep, d, y);
      }
      RemoveLabel(d, y);
    }

    /** Write a label, or rather equate it with the one just written. */
    method LabelNode(lab: nat)
      requires Valid() && Label(lab) !in naive
      modifies this`items, this`naive, this`equatedTo, this`rep, this`dist
      ensures Valid() && naive == old(naive) + [Label(lab)]
      ensures EndsWithLabel(old(items)) ==>
        items == old(items) && equatedTo == old(equatedTo)[lab := old(items)[|old(items)| - 1].l]
      ensures !EndsWithLabel(old(items)) ==> items == old(items) + [Label(lab)] && equatedTo == old(equatedTo)
      ensures old(Spaced(items)) ==> Spaced(items)
    {
      Append(Label(lab));
      MergeLast();
    }

    /** If the list ends with two labels, the second is equated with the first, and goes. */
    method MergeLast()
      requires Valid() && 0 < |items|
      modifies this`items, this`equatedTo, this`rep, this`dist
      ensures Valid()
      ensures var last := old(items)[|old(items)| - 1]; var front := old(items)[..|old(items)| - 1];
        if last.Label? && EndsWithLabel(front) then items == front
          && equatedTo == old(equatedTo)[last.l := front[|front| - 1].l]
        else items == old(items) && equatedTo == old(equatedTo)
    {
      var d := |items| - 1;
      if 0 < d && items[d].Label? && items[d - 1].Label? {
        assert Listed(naive, items, equatedTo, d) && Listed(naive, items, equatedTo, d - 1);
        DropSecondLabel(naive, items, equatedTo, rep, dist, d);
        LabelsEquate(naive, items, equatedTo, d, items[d - 1].l);
        EquateLabel(items[d].l, items[d - 1].l);
        PartDelete(items, naive, d);
        items := Without(items, d);
      }
    }

    /** A label that ends the list is equated with lab, to which control goes on: by a jump, or
        because lab is defined next. */
    method AppendOver(lab: nat, item: Item)
      requires Valid() && Label(lab) !in naive && (item == Jump(lab) || item == Label(lab))
      modifies this`items, this`naive, this`equatedTo, this`rep, this`dist
      ensures Valid() && naive == old(naive) + [item]
      ensures EndsWithLabel(old(items)) ==>
        var front := old(items)[..|old(items)| - 1];
        items == front + [item] && equatedTo == old(equatedTo)[old(items)[|front|].l := lab]
      ensures !EndsWithLabel(old(items)) ==> items == old(items) + [item] && equatedTo == old(equatedTo)
    {
      ghost var before := items;
      Append(item);
      var n := |items|;
      if 2 <= n && items[n - 2].Label? {
        assert Listed(naive, items, equatedTo, n - 2);
        assert item.Label? ==> Listed(naive, items, equatedTo, n - 1);
        RemoveLabel(n - 2, lab);
        assert items == before[..|before| - 1] + [item];
      }
    }

    /** The jump at the end of the first alternative of a choice. */
    method JumpOn(lab: nat)
      requires Valid() && Label(lab) !in naive
      modifies this`items, this`naive, this`equatedTo, this`rep, this`dist
      ensures Valid() && naive == old(naive) + [Jump(lab)]
      ensures EndsWithLabel(old(items)) ==>
        var front := old(items)[..|old(items)| - 1];
        items == front + [Jump(lab)] && equatedTo == old(equatedTo)[old(items)[|front|].l := lab]
      ensures !EndsWithLabel(old(items)) ==> items == old(items) + [Jump(lab)] && equatedTo == old(equatedTo)
      ensures old(Spaced(items)) ==> Spaced(items)
    {
      AppendOver(lab, Jump(lab));
    }

    /** The label at the end of a choice. */
    method LabelOn(lab: nat)
      requires Valid() && Label(lab) !in naive
      modifies this`items, this`naive, this`equatedTo, this`rep, this`dist
      ensures Valid() && naive == old(naive) + [Label(lab)]
      ensures EndsWithLabel(old(items)) ==>
        var front := old(items)[..|old(items)| - 1];
        var eq := old(equatedTo)[old(items)[|front|].l := lab];
        if EndsWithLabel(front) then items == front && equatedTo == eq[lab := front[|front| - 1].l]
        else items == front + [Label(lab)] && equatedTo == eq
      ensures !EndsWithLabel(old(items)) ==> items == old(items) + [Label(lab)] && equatedTo == old(equatedTo)
      ensures old(Spaced(items)) ==> Spaced(items)
    {
      ghost var before := items;
      ghost var front := if EndsWithLabel(before) then before[..|before| - 1] else before;
      AppendOver(lab, Label(lab));
      assert items == front + [Label(lab)] && items[..|items| - 1] == front;
      MergeLast();
      assert items == if EndsWithLabel(front) then front else front + [Label(lab)];
    }

    /** The list ends with a jump to lab, with nothing but marks before it, back to cp. */
    ghost predicate Jumping(lab: nat, cp: nat)
      reads this
    {
      && cp < |items| && items[|items| - 1] == Jump(lab)
      && (forall i: nat :: cp <= i < |items| - 1 ==> items[i].Mark?)
      && (cp > 0 ==> !items[cp - 1].Mark?)
    }

    /** But for marks, the list ends with a jump to lab behind code that control falls from, and a
        label there stands for lab already; or it ends with another transfer, and the jump is gone. */
    ghost predicate Branched(lab: nat, cp: nat)
      reads this
    {
      if cp > 0 && cp <= |items| && (items[cp - 1].Jump? || items[cp - 1].Switch?) then
        forall i: nat :: cp <= i < |items| ==> items[i].Mark?
      else Jumping(lab, cp) && (cp > 0 && items[cp - 1].Label? ==> items[cp - 1] == Label(rep(lab)))
    }

    /** Equate the label before the jump with its target, unless they are the same already. */
    method EquateBefore(lab: nat, cp: nat) returns (same: bool, next: nat)
      requires Valid() && Jumping(lab, cp) && cp > 0 && items[cp - 1].Label?
      modifies this`items, this`equatedTo, this`rep, this`dist
      ensures Valid() && Jumping(lab, next)
      ensures old(Clean(items[..|items| - 1], rep)) ==> Clean(items[..|items| - 1], rep)
      ensures if same then items == old(items) && next == cp && items[cp - 1] == Label(rep(lab))
        else |items| < |old(items)|
    {
      var x := items[cp - 1].l;
      assert Listed(naive, items, equatedTo, cp - 1);
      OnWayIsRep(equatedTo, rep, dist, x, lab);
      next := cp;
      same := Equal(x, lab);
      if !same {
        RemoveCleanly(cp - 1, lab);
        next := SkipMarks(cp - 1);
      }
    }

    /** Branch to a label. Labels just before the jump stand for the same place as its target, and
        after another transfer it is not needed. */
    method BranchTo(lab: nat)
      requires Valid()
      modifies this`items, this`naive, this`equatedTo, this`rep, this`dist
      ensures Valid() && naive == old(naive) + [Jump(lab)]
      ensures exists cp: nat {:trigger Branched(lab, cp)} :: Branched(lab, cp)
      ensures old(Clean(items, rep)) ==> Clean(items, rep)
    {
      Append(Jump(lab));
      assert items[..|items| - 1] == old(items);
      var cp: nat := SkipMarks(|items| - 1);
      var same := false;
      while cp > 0 && items[cp - 1].Label? && !same
        invariant Valid() && Jumping(lab, cp) && naive == old(naive) + [Jump(lab)]
        invariant same ==> cp > 0 && items[cp - 1] == Label(rep(lab))
        invariant old(Clean(items, rep)) ==> Clean(items[..|items| - 1], rep)
        decreases |items|, !same
      {
        same, cp := EquateBefore(lab, cp);
      }
      EndBranch(lab, cp);
    }

    /** The jump stays, unless there is another transfer before it. */
    method EndBranch(lab: nat, cp: nat)
      requires Valid() && Jumping(lab, cp) && (cp > 0 && items[cp - 1].Label? ==> items[cp - 1] == Label(rep(lab)))
      modifies this`items
      ensures Valid() && Branched(lab, cp)
      ensures old(Clean(items[..|items| - 1], rep)) ==> Clean(items, rep)
    {
      if cp > 0 && (items[cp - 1].Jump? || items[cp - 1].Switch?) {
        RemoveJump(lab, cp);
      } else if Clean(items[..|items| - 1], rep) {
        CleanJump(items, rep, cp);
      }
    }

    /** A jump behind another transfer goes. */
    method RemoveJump(lab: nat, cp: nat)
      requires Valid() && Jumping(lab, cp) && cp > 0 && (items[cp - 1].Jump? || items[cp - 1].Switch?)
      modifies this`items
      ensures Valid() && items == old(items)[..|old(items)| - 1]
    {
      DropLast(naive, items, rep, cp - 1);
      LabelsDelete(naive, items, equatedTo, |items| - 1);
      PartDelete(items, naive, |items| - 1);
      items := Without(items, |items| - 1);
    }

    /** The finished list, with labels replaced by those that stand for them. */
    method Finish() returns (code: seq<Item>)
      requires Valid()
      ensures Equivalent(Program(naive, Own()), 0, Program(code, Own()), 0)
      ensures forall i: nat :: i < |code| && code[i].Label? ==> code[i].l !in equatedTo
      ensures IsResolved(Program(items, rep), code)
      ensures Clean(items, rep) ==> Tidy(code, Own())
    {
      code := [];
      for i := 0 to |items|
        invariant |code| == i && forall j: nat :: j < i ==> code[j] == Resolve(items[j], rep)
      {
        var item := ResolveItem(items[i]);
        code := code + [item];
      }
      Agreement(code);
      if Clean(items, rep) {
        TidyResolved(items, rep, code);
      }
      forall i: nat | i < |code| && code[i].Label? ensures code[i].l !in equatedTo {
        assert Listed(naive, items, equatedTo, i);
      }
    }

    lemma Agreement(code: seq<Item>)
      requires Valid() && IsResolved(Program(items, rep), code)
      ensures Equivalent(Program(naive, Own()), 0, Program(code, Own()), 0)
    {
      assert Agrees(naive, items, rep, []);
      assert naive + [] == naive && items + [] == items;
      ResolvedEquivalent(Program(items, rep), code, 0);
      Chain(Program(naive, Own()), 0, Program(items, rep), 0, Program(code, Own()), 0);
    }

    method ResolveItem(item: Item) returns (r: Item)
      requires Equates(equatedTo, rep, dist)
      ensures r == Resolve(item, rep)
    {
      match item
      case Mark => return Mark;
      case Label(l) => return Label(l);
      case Jump(l) =>
        var m := Equated(l);
        return Jump(m);
      case Branch(id, op, l) =>
        var m := Equated(l);
        return Branch(id, op, m);
      case Gen(id, targets) =>
        var ms := EquatedAll(targets);
        return Gen(id, ms);
      case Switch(id, targets) =>
        var ms := EquatedAll(targets);
        return Switch(id, ms);
    }

    method EquatedAll(ls: seq<nat>) returns (ms: seq<nat>)
      requires Equates(equatedTo, rep, dist)
      ensures ms == ResolveAll(ls, rep)
    {
      ms := [];
      for i := 0 to |ls|
        invariant |ms| == i && forall j: nat :: j < i ==> ms[j] == rep(ls[j])
      {
        var m := Equated(ls[i]);
        ms := ms + [m];
      }
    }
  }

  lemma LabelOnce(naive: seq<Item>, items: seq<Item>, eq: map<nat, nat>, d: nat)
    requires Labels(naive, items, eq) && d < |items| && items[d].Label?
    ensures items[d].l !in eq && items[d] !in Without(items, d)
  {
    assert Listed(naive, items, eq, d);
  }

  predicate EndsWithLabel(items: seq<Item>) {
    items != [] && items[|items| - 1].Label?
  }

  // ----- Whole runs -----

  /** No label is defined twice. */
  ghost predicate DefinedOnce(code: seq<Item>) {
    forall i: nat, j: nat {:trigger code[i], code[j]} :: i < j < |code| && code[i].Label? ==> code[i] != code[j]
  }

  /** Write a whole list, item by item, with its labels and branches cleaned up on the way. */
  method WriteAll(source: seq<Item>) returns (code: seq<Item>)
    requires DefinedOnce(source)
    ensures Equivalent(Program(source, Own()), 0, Program(code, Own()), 0)
    ensures Tidy(code, Own()) && exists items, rep :: CleanPart(items, rep, source, code)
  {
    var w := new Writer();
    for i := 0 to |source|
      invariant w.Valid() && w.naive == source[..i] && Clean(w.items, w.rep)
      invariant fresh(w)
    {
      match source[i] {
        case Label(l) => w.DefineLabel(l);
        case Jump(l) => w.BranchTo(l);
        case _ => w.Append(source[i]);
      }
    }
    code := w.Finish();
    assert source[..|source|] == source;
    assert CleanPart(w.items, w.rep, source, code);
  }
}
