/** Listing the code for a tree, with its labels cleaned up on the way. */
module Lister {
  import opened CodeList
  import opened Cleanup
  import opened CodeWriter
  import opened Tidiness
  import opened Conditions

  ghost predicate DefinesWithin(items: seq<Item>, n0: nat, n1: nat) {
    forall l: nat {:trigger Label(l)} :: Label(l) in items ==> n0 <= l < n1
  }

  lemma DefinesBoth(a: seq<Item>, b: seq<Item>, n0: nat, m: nat, m': nat, n1: nat)
    requires DefinesWithin(a, n0, m) && DefinesWithin(b, m', n1) && m <= n1 && n0 <= m'
    ensures DefinesWithin(a + b, n0, n1)
  {
  }

  /** The labels that a listing defines have been made for it. */
  lemma {:induction false} ListingDefines(e: Tree, tlab: nat, flab: nat, next: nat)
    requires Fitting(e, tlab, flab) && 0 < next
    ensures DefinesWithin(Listing(e, tlab, flab, next).items, next, Listing(e, tlab, flab, next).next)
    decreases e, 1
  {
    match e
    case Compare(_, _) =>
    case Const(_) =>
    case Effect(_) =>
    case Not(x) => ListingDefines(x, flab, tlab, next);
    case And(_, _) => JunctionDefines(e, tlab, flab, next);
    case Or(_, _) => JunctionDefines(e, tlab, flab, next);
    case Choose(_, _, _) => ChooseDefines(e, next);
    case Right(x, y) =>
      var first := Listing(x, 0, 0, next);
      var last := Listing(y, tlab, flab, first.next);
      ListingDefines(x, 0, 0, next);
      ListingDefines(y, tlab, flab, first.next);
      DefinesBoth(first.items, last.items, next, first.next, first.next, last.next);
  }

  lemma JunctionDefines(e: Tree, tlab: nat, flab: nat, next: nat)
    requires Fitting(e, tlab, flab) && 0 < next && (e.And? || e.Or?)
    ensures DefinesWithin(Listing(e, tlab, flab, next).items, next, Listing(e, tlab, flab, next).next)
    decreases e, 0
  {
    var j := JunctionOf(e, tlab, flab, next, 0);
    ListingDefines(e.l, j.tl, j.fl, j.after);
    ListingDefines(e.r, tlab, flab, j.left.next);
    var tail := if Decider(e, tlab, flab) != 0 then [] else [Label(next)];
    ListingDefinesParts(j.left, j.right, tail, next, j.after);
    assert Listing(e, tlab, flab, next) == Listed(j.left.items + (j.right.items + tail), j.right.next);
  }

  lemma ChooseDefines(e: Tree, next: nat)
    requires Fitting(e, 0, 0) && 0 < next && e.Choose?
    ensures DefinesWithin(Listing(e, 0, 0, next).items, next, Listing(e, 0, 0, next).next)
    decreases e, 0
  {
    var s := LayoutOf(e, next, 0);
    ListingDefines(e.cond, 0, next, next + 2);
    ListingDefines(e.yes, 0, 0, s.test.next);
    ListingDefines(e.no, 0, 0, s.yes.next);
    DefinesBoth(s.no.items, [Label(next + 1)], next, s.no.next, next, s.no.next);
    var s4 := s.no.items + [Label(next + 1)];
    DefinesBoth([Label(next)], s4, next, s.no.next, next, s.no.next);
    DefinesBoth([Jump(next + 1)], [Label(next)] + s4, next, s.no.next, next, s.no.next);
    var s2 := [Jump(next + 1)] + ([Label(next)] + s4);
    DefinesBoth(s.yes.items, s2, next, s.no.next, next, s.no.next);
    DefinesBoth(s.test.items, s.yes.items + s2, next, s.no.next, next, s.no.next);
  }

  lemma ListingDefinesParts(left: Listed, right: Listed, tail: seq<Item>, next: nat, after: nat)
    requires DefinesWithin(left.items, after, left.next) && DefinesWithin(right.items, left.next, right.next)
    requires next <= after <= left.next <= right.next && (tail == [] || (tail == [Label(next)] && next < after))
    ensures DefinesWithin(left.items + (right.items + tail), next, right.next)
  {
    DefinesBoth(right.items, tail, next, right.next, next, right.next);
    DefinesBoth(left.items, right.items + tail, next, left.next, next, right.next);
  }

  lemma ChooseShape(e: Tree, next: nat, naive: seq<Item>)
    requires Fitting(e, 0, 0) && e.Choose? && 0 < next
    ensures var s := LayoutOf(e, next, 0);
      naive + s.test.items + s.yes.items + [Jump(next + 1)] + [Label(next)] + s.no.items + [Label(next + 1)]
        == naive + Listing(e, 0, 0, next).items
  {
  }

  /** The list ends with the jump over the second alternative, not right behind a label, and with the
      label of the second. */
  ghost predicate Switched(items: seq<Item>, end: nat, f: nat) {
    var n := |items|;
    2 <= n && items[n - 2] == Jump(end) && items[n - 1] == Label(f) && (3 <= n ==> !items[n - 3].Label?)
  }

  class TreeLister {
    const w: Writer
    var next: nat         // the next label to make

    constructor (next: nat)
      ensures this.next == next && fresh(w) && w.Valid() && w.naive == [] && w.items == []
    {
      w := new Writer();
      this.next := next;
    }

    ghost predicate Ready()
      reads this, w
    {
      w.Valid() && 0 < next && DefinesWithin(w.naive, 0, next) && Spaced(w.items)
    }

    method GenLabel() returns (l: nat)
      modifies this`next
      ensures l == old(next) && next == l + 1
    {
      l := next;
      next := next + 1;
    }

    /** List the code for a tree. */
    method ListNodes(e: Tree, tlab: nat, flab: nat)
      requires Ready() && Fitting(e, tlab, flab)
      modifies this`next, w
      ensures Ready()
      ensures next == Listing(e, tlab, flab, old(next)).next
      ensures w.naive == old(w.naive) + Listing(e, tlab, flab, old(next)).items
      decreases e, 3
    {
      ListingDefines(e, tlab, flab, next);
      match e {
        case Compare(_, _) => ListLeaf(e, tlab, flab);
        case Const(_) => ListLeaf(e, tlab, flab);
        case Effect(_) => ListLeaf(e, tlab, flab);
        case Not(x) => ListNodes(x, flab, tlab);
        case And(_, _) => ListAnd(e, tlab, flab);
        case Or(_, _) => ListOr(e, tlab, flab);
        case Choose(_, _, _) => ListChoose(e);
        case Right(x, y) => ListBoth(x, 0, 0, y, tlab, flab, e);
      }
    }

    method ListLeaf(e: Tree, tlab: nat, flab: nat)
      requires Ready() && Fitting(e, tlab, flab) && (e.Compare? || e.Const? || e.Effect?)
      modifies w
      ensures Ready() && w.naive == old(w.naive) + Listing(e, tlab, flab, next).items
    {
      match e {
        case Compare(id, op) =>
          if tlab != 0 {
            w.Append(Branch(id, op, tlab));
          } else {
            w.Append(Branch(id, Negate(op), flab));
          }
        case Const(c) =>
          if tlab != 0 && c != 0 {
            w.Append(Jump(tlab));
          } else if flab != 0 && c == 0 {
            w.Append(Jump(flab));
          }
        case Effect(id) => w.Append(Gen(id, []));
      }
    }

    /** List two operands, with their labels. Labels made before are not defined by that. */
    method ListBoth(l: Tree, tl: nat, fl: nat, r: Tree, tr: nat, fr: nat, ghost e: Tree)
      requires Ready() && Fitting(l, tl, fl) && Fitting(r, tr, fr) && l < e && r < e
      modifies this`next, w
      ensures Ready()
      ensures var left := Listing(l, tl, fl, old(next)); var right := Listing(r, tr, fr, left.next);
        next == right.next && w.naive == old(w.naive) + (left.items + right.items)
      ensures forall k: nat {:trigger Label(k)} :: k < old(next) && Label(k) in w.naive ==> Label(k) in old(w.naive)
      decreases e, 1
    {
      ghost var left := Listing(l, tl, fl, next);
      ListingDefines(l, tl, fl, next);
      ListingDefines(r, tr, fr, left.next);
      ListNodes(l, tl, fl);
      ListNodes(r, tr, fr);
    }

    method ListAnd(e: Tree, tlab: nat, flab: nat)
      requires Ready() && Fitting(e, tlab, flab) && e.And?
      modifies this`next, w
      ensures Ready()
      ensures next == Listing(e, tlab, flab, old(next)).next
      ensures w.naive == old(w.naive) + Listing(e, tlab, flab, old(next)).items
      decreases e, 2
    {
      if flab != 0 {
        ListBoth(e.l, 0, flab, e.r, 0, flab, e);
      } else {
        var f := GenLabel();
        ListBoth(e.l, 0, f, e.r, tlab, 0, e);
        w.LabelNode(f);
      }
    }

    method ListOr(e: Tree, tlab: nat, flab: nat)
      requires Ready() && Fitting(e, tlab, flab) && e.Or?
      modifies this`next, w
      ensures Ready()
      ensures next == Listing(e, tlab, flab, old(next)).next
      ensures w.naive == old(w.naive) + Listing(e, tlab, flab, old(next)).items
      decreases e, 2
    {
      if tlab != 0 {
        ListBoth(e.l, tlab, 0, e.r, tlab, 0, e);
      } else {
        var l := GenLabel();
        ListBoth(e.l, l, 0, e.r, 0, flab, e);
        w.LabelNode(l);
      }
    }

    method ListChoose(e: Tree)
      requires Ready() && Fitting(e, 0, 0) && e.Choose?
      modifies this`next, w
      ensures Ready()
      ensures next == Listing(e, 0, 0, old(next)).next
      ensures w.naive == old(w.naive) + Listing(e, 0, 0, old(next)).items
      decreases e, 2
    {
      ghost var n0, naive0, s := next, w.naive, LayoutOf(e, next, 0);
      var f := GenLabel();
      var end := GenLabel();
      FirstHalf(e, f, end, n0, naive0, s);
      SecondHalf(e, end, s);
      ChooseShape(e, n0, naive0);
      ListingDefines(e, 0, 0, n0);
      DefinesBoth(naive0, Listing(e, 0, 0, n0).items, 0, n0, n0, next);
    }

    /** The second alternative, and the label at the end. */
    method SecondHalf(e: Tree, end: nat, ghost s: Layout)
      requires Ready() && Fitting(e, 0, 0) && e.Choose? && Label(end) !in w.naive
      requires 0 < end < next == s.yes.next && s.no == Listing(e.no, 0, 0, next)
      modifies this`next, w
      ensures w.Valid() && next == s.no.next && 0 < next && Spaced(w.items)
      ensures w.naive == old(w.naive) + s.no.items + [Label(end)]
      decreases e, 1
    {
      ListingDefines(e.no, 0, 0, next);
      ListNodes(e.no, 0, 0);
      w.LabelOn(end);
    }

    /** The test, the first alternative, and the label of the second. */
    method FirstHalf(e: Tree, f: nat, end: nat, ghost n0: nat, ghost naive0: seq<Item>, ghost s: Layout)
      requires Ready() && Fitting(e, 0, 0) && e.Choose? && w.naive == naive0 && DefinesWithin(naive0, 0, n0)
      requires 0 < n0 == f && end == f + 1 && next == f + 2 && s == LayoutOf(e, n0, 0)
      modifies this`next, w
      ensures Ready() && next == s.yes.next && Label(end) !in w.naive
      ensures w.naive == naive0 + s.test.items + s.yes.items + [Jump(end)] + [Label(f)]
      ensures Switched(w.items, end, f)
      decreases e, 1
    {
      ListingDefines(e.cond, 0, f, next);
      ListNodes(e.cond, 0, f);
      ListingDefines(e.yes, 0, 0, next);
      ListNodes(e.yes, 0, 0);
      EndFirst(end, f);
    }

    /** The jump at the end of the first alternative, and the label of the second. */
    method EndFirst(end: nat, f: nat)
      requires w.Valid() && Spaced(w.items) && f != end && Label(end) !in w.naive && Label(f) !in w.naive
      modifies w
      ensures w.Valid() && Spaced(w.items) && w.naive == old(w.naive) + [Jump(end)] + [Label(f)]
      ensures Switched(w.items, end, f)
    {
      w.JumpOn(end);
      w.LabelNode(f);
    }
  }

  // ----- The theorem -----

  lemma {:induction false} StepsProduce(p: Program, a: nat, t: seq<Event>, b: nat, u: seq<Event>, n: nat, m: nat)
      returns (k: nat)
    requires Steps(p, a, t, b, u, n) && p.Behaves(a, t, m)
    ensures p.Behaves(b, u, k)
    decreases n
  {
    if n == 0 {
      k := m;
    } else if m == 0 {
      NoEvents(p, a, b, u, n);
      k := 0;
    } else if p.items[a].Silent() {
      k := StepsProduce(p, p.SilentNext(a), t, b, u, n - 1, m - 1);
    } else {
      k := StepsProduce(p, p.Next(a, t[0]), t[1..], b, u, n - 1, m - 1);
    }
  }

  lemma {:induction false} NoEvents(p: Program, a: nat, b: nat, u: seq<Event>, n: nat)
    requires Steps(p, a, [], b, u, n)
    ensures u == []
    decreases n
  {
    if n > 0 {
      NoEvents(p, p.SilentNext(a), b, u, n - 1);
    }
  }

  lemma {:induction false} ProduceSteps(p: Program, a: nat, t: seq<Event>, b: nat, u: seq<Event>, n: nat, k: nat)
    requires Steps(p, a, t, b, u, n) && p.Behaves(b, u, k)
    ensures p.Behaves(a, t, n + k)
    decreases n
  {
    if n > 0 {
      if p.items[a].Silent() {
        ProduceSteps(p, p.SilentNext(a), t, b, u, n - 1, k);
        BehavesSilently(p, a, t, n - 1 + k);
      } else {
        ProduceSteps(p, p.Next(a, t[0]), t[1..], b, u, n - 1, k);
        BehavesVisibly(p, a, t, n - 1 + k);
      }
    }
  }

  lemma BehavesSilently(p: Program, a: nat, t: seq<Event>, n: nat)
    requires a < |p.items| && p.items[a].Silent() && p.Behaves(p.SilentNext(a), t, n)
    ensures p.Behaves(a, t, n + 1)
  {
  }

  lemma BehavesVisibly(p: Program, a: nat, t: seq<Event>, n: nat)
    requires a < |p.items| && !p.items[a].Silent()
    requires t != [] && p.Allowed(a, t[0]) && p.Behaves(p.Next(a, t[0]), t[1..], n)
    ensures p.Behaves(a, t, n + 1)
  {
  }

  lemma RunsProduce(p: Program, a: nat, t: seq<Event>, b: nat, u: seq<Event>)
    requires Runs(p, a, t, b, u)
    ensures Produces(p, a, t) <==> Produces(p, b, u)
  {
    var n: nat :| Steps(p, a, t, b, u, n);
    if Produces(p, a, t) {
      var m: nat :| p.Behaves(a, t, m);
      var k := StepsProduce(p, a, t, b, u, n, m);
    }
    if Produces(p, b, u) {
      var k: nat :| p.Behaves(b, u, k);
      ProduceSteps(p, a, t, b, u, n, k);
    }
  }

  lemma {:induction false} FindBehind(s: seq<Item>, more: seq<Item>, l: nat)
    requires Label(l) !in s
    ensures FindIn(s + more, l) == |s| + FindIn(more, l)
  {
    if s == [] {
      assert s + more == more;
    } else {
      assert (s + more)[1..] == s[1..] + more;
      FindBehind(s[1..], more, l);
    }
  }

  /** Where the code that follows is entered: at the label for the value, or at its start. */
  function Exit(more: seq<Item>, tlab: nat, flab: nat, v: bool): nat {
    if v && tlab != 0 then FindIn(more, tlab) else if !v && flab != 0 then FindIn(more, flab) else 0
  }

  lemma TargetBehind(p: Program, s: seq<Item>, more: seq<Item>, tlab: nat, flab: nat, v: bool)
    requires p == Program(s + more, Own()) && (tlab != 0 ==> Label(tlab) !in s) && (flab != 0 ==> Label(flab) !in s)
    ensures Target(p, tlab, flab, v, |s|) == |s| + Exit(more, tlab, flab, v)
  {
    if v && tlab != 0 {
      FindBehind(s, more, tlab);
    } else if !v && flab != 0 {
      FindBehind(s, more, flab);
    }
  }

  lemma {:induction false} NaiveTransfers(e: Tree, tlab: nat, flab: nat, next: nat, s: seq<Item>, more: seq<Item>,
      n: Program, t: seq<Event>, r: Result)
    requires Fitting(e, tlab, flab) && tlab < next && flab < next && r == Eval(e, t) && r.Done?
    requires s == Listing(e, tlab, flab, next).items && Unique(s + more) && n == Program(s + more, Own())
    ensures Produces(n, 0, t) <==> Produces(n, |s| + Exit(more, tlab, flab, r.value), r.rest)
  {
    ListedAtStart(e, tlab, flab, next, s, more, n);
    ListingRuns(n, e, tlab, flab, next, t, r);
    OutsideLabels(e, tlab, flab, next, s);
    TargetProduces(n, s, more, tlab, flab, r.value, t, r.rest);
  }

  lemma ListedAtStart(e: Tree, tlab: nat, flab: nat, next: nat, s: seq<Item>, more: seq<Item>, n: Program)
    requires Fitting(e, tlab, flab) && 0 < next && s == Listing(e, tlab, flab, next).items
    requires Unique(s + more) && n == Program(s + more, Own())
    ensures Holds(n, e, tlab, flab, next, 0)
  {
    assert Embedded(n.items, 0, s);
  }

  /** The labels that a listing jumps to from outside are not its own. */
  lemma OutsideLabels(e: Tree, tlab: nat, flab: nat, next: nat, s: seq<Item>)
    requires Fitting(e, tlab, flab) && tlab < next && flab < next && s == Listing(e, tlab, flab, next).items
    ensures Label(tlab) !in s && Label(flab) !in s
  {
    ListingDefines(e, tlab, flab, next);
  }

  lemma TargetProduces(n: Program, s: seq<Item>, more: seq<Item>, tlab: nat, flab: nat, v: bool, t: seq<Event>,
      u: seq<Event>)
    requires n == Program(s + more, Own()) && Runs(n, 0, t, Target(n, tlab, flab, v, |s|), u)
    requires (tlab != 0 ==> Label(tlab) !in s) && (flab != 0 ==> Label(flab) !in s)
    ensures Produces(n, 0, t) <==> Produces(n, |s| + Exit(more, tlab, flab, v), u)
  {
    TargetBehind(n, s, more, tlab, flab, v);
    RunsProduce(n, 0, t, Target(n, tlab, flab, v, |s|), u);
  }

  /** The code for e, at the start of the list. */
  lemma ListingRuns(p: Program, e: Tree, tlab: nat, flab: nat, next: nat, t: seq<Event>, r: Result)
    requires Holds(p, e, tlab, flab, next, 0) && r == Eval(e, t) && r.Done?
    ensures Runs(p, 0, t, Target(p, tlab, flab, r.value, |Listing(e, tlab, flab, next).items|), r.rest)
  {
    ListingTransfers(p, e, tlab, flab, next, 0, t);
  }

  /** The code listed for a condition or effect, cleaned up as it is, and followed by any other
      code: it takes the events of the evaluation, and then control is where the value says. */
  lemma ListedCodeTransfers(e: Tree, tlab: nat, flab: nat, next: nat, s: seq<Item>, items: seq<Item>, rep: nat -> nat,
      more: seq<Item>, t: seq<Event>)
    requires Fitting(e, tlab, flab) && tlab < next && flab < next && Eval(e, t).Done?
    requires s == Listing(e, tlab, flab, next).items && AlwaysAgrees(s, items, rep) && Fresh(s, more)
      && Unique(s + more)
    ensures var p := Program(items + more, rep);
      Produces(p, 0, t) <==> Produces(p, |items| + Exit(more, tlab, flab, Eval(e, t).value), Eval(e, t).rest)
  {
    var r := Eval(e, t);
    NaiveTransfers(e, tlab, flab, next, s, more, Program(s + more, Own()), t, r);
    AgreeOnEvents(s, items, rep, more, Exit(more, tlab, flab, r.value), t, r.rest);
  }

  lemma AgreeOnEvents(s: seq<Item>, items: seq<Item>, rep: nat -> nat, more: seq<Item>, i: nat, t: seq<Event>,
      u: seq<Event>)
    requires AlwaysAgrees(s, items, rep) && Fresh(s, more) && i <= |more|
    ensures Produces(Program(s + more, Own()), 0, t) <==> Produces(Program(items + more, rep), 0, t)
    ensures Produces(Program(s + more, Own()), |s| + i, u) <==> Produces(Program(items + more, rep), |items| + i, u)
  {
    assert Agrees(s, items, rep, more);
    assert AgreesBehind(s, items, rep, more, i);
  }

  /** List the code for one tree: the items, and the labels that are equated. */
  method ListTree(e: Tree, tlab: nat, flab: nat, next: nat) returns (items: seq<Item>, equatedTo: map<nat, nat>)
    requires Fitting(e, tlab, flab) && 0 < next
    ensures exists rep, dist ::
      Equates(equatedTo, rep, dist) && AlwaysAgrees(Listing(e, tlab, flab, next).items, items, rep)
    ensures Spaced(items)
  {
    var lister := new TreeLister(next);
    lister.ListNodes(e, tlab, flab);
    items, equatedTo := lister.w.items, lister.w.equatedTo;
    assert Equates(equatedTo, lister.w.rep, lister.w.dist);
    assert lister.w.naive == Listing(e, tlab, flab, next).items;
  }
}
