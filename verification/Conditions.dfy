/** Conditions and conditional effects: their meaning, and the code listed for them. */
module Conditions {
  import opened CodeList

  /** Conditions are Compare, Const, Not, And and Or of conditions. Effects are Effect, Choose, and
      And and Or whose right operand is an effect. Right does its first operand's effect first. */
  datatype Tree = Compare(id: nat, op: Operator) | Const(c: int) | Not(e: Tree) | And(l: Tree, r: Tree)
      | Or(l: Tree, r: Tree)
    | Effect(id: nat) | Choose(cond: Tree, yes: Tree, no: Tree) | Right(first: Tree, last: Tree)
  {
    predicate IsCondition() {
      match this
      case Compare(_, _) => true
      case Const(_) => true
      case Not(e) => e.IsCondition()
      case And(l, r) => l.IsCondition() && r.IsCondition()
      case Or(l, r) => l.IsCondition() && r.IsCondition()
      case Effect(_) => false
      case Choose(_, _, _) => false
      case Right(x, y) => x.IsEffect() && y.IsCondition()
    }

    predicate IsEffect() {
      match this
      case Compare(_, _) => false
      case Const(_) => false
      case Not(_) => false
      case And(l, r) => l.IsCondition() && r.IsEffect()
      case Or(l, r) => l.IsCondition() && r.IsEffect()
      case Effect(_) => true
      case Choose(c, x, y) => c.IsCondition() && x.IsEffect() && y.IsEffect()
      case Right(x, y) => x.IsEffect() && y.IsEffect()
    }
  }

  /** What evaluation makes of the events to come: a value and the events left, or nothing, when
      they are not the events of this tree. */
  datatype Result = Stuck | Done(value: bool, rest: seq<Event>)

  /** Evaluation from left to right, no further than the value requires. */
  function Eval(e: Tree, t: seq<Event>): Result {
    match e
    case Compare(id, op) =>
      if t != [] && t[0].id == id then Done(CodeList.Compare(op, t[0].left, t[0].right), t[1..]) else Stuck
    case Const(c) => Done(c != 0, t)
    case Not(x) => (match Eval(x, t) case Stuck => Stuck case Done(v, rest) => Done(!v, rest))
    case And(l, r) =>
      (match Eval(l, t)
       case Stuck => Stuck
       case Done(v, rest) => if v then Eval(r, rest) else Done(false, rest))
    case Or(l, r) =>
      (match Eval(l, t)
       case Stuck => Stuck
       case Done(v, rest) => if v then Done(true, rest) else Eval(r, rest))
    case Effect(id) => if t != [] && t[0].id == id && t[0].left == 0 then Done(true, t[1..]) else Stuck
    case Choose(c, x, y) => (match Eval(c, t) case Stuck => Stuck case Done(v, rest) => Eval(if v then x else y, rest))
    case Right(x, y) => (match Eval(x, t) case Stuck => Stuck case Done(_, rest) => Eval(y, rest))
  }

  function Negate(op: Operator): (n: Operator)
    ensures forall x: int, y: int :: CodeList.Compare(n, x, y) <==> !CodeList.Compare(op, x, y)
  {
    match op
    case EQ => NE
    case NE => EQ
    case GT => LE
    case LT => GE
    case GE => LT
    case LE => GT
  }

  /** Label 0 is no label. A condition is listed with one label, for true or for false; an effect
      with none. */
  predicate Fitting(e: Tree, tlab: nat, flab: nat) {
    if tlab == 0 && flab == 0 then e.IsEffect() else e.IsCondition() && (tlab == 0 || flab == 0)
  }

  datatype Listed = Listed(items: seq<Item>, next: nat)

  /** The code for a tree, without any clean-up; next is the next label to make. */
  function Listing(e: Tree, tlab: nat, flab: nat, next: nat): (r: Listed)
    requires Fitting(e, tlab, flab) && 0 < next
    ensures next <= r.next
  {
    match e
    case Compare(id, op) => Listed([if tlab != 0 then Branch(id, op, tlab) else Branch(id, Negate(op), flab)], next)
    case Const(c) =>
      Listed(if tlab != 0 && c != 0 then [Jump(tlab)] else if flab != 0 && c == 0 then [Jump(flab)] else [], next)
    case Not(x) => Listing(x, flab, tlab, next)
    case And(l, r) =>
      var left := Listing(l, 0, if flab != 0 then flab else next, if flab != 0 then next else next + 1);
      var right := Listing(r, tlab, flab, left.next);
      Listed(left.items + (right.items + (if flab != 0 then [] else [Label(next)])), right.next)
    case Or(l, r) =>
      var left := Listing(l, if tlab != 0 then tlab else next, 0, if tlab != 0 then next else next + 1);
      var right := Listing(r, tlab, flab, left.next);
      Listed(left.items + (right.items + (if tlab != 0 then [] else [Label(next)])), right.next)
    case Effect(id) => Listed([Gen(id, [])], next)
    case Choose(c, x, y) =>
      var test := Listing(c, 0, next, next + 2);
      var yes := Listing(x, 0, 0, test.next);
      var no := Listing(y, 0, 0, yes.next);
      Listed(test.items + (yes.items + ([Jump(next + 1)] + ([Label(next)] + (no.items + [Label(next + 1)])))), no.next)
    case Right(x, y) =>
      var first := Listing(x, 0, 0, next);
      var last := Listing(y, tlab, flab, first.next);
      Listed(first.items + last.items, last.next)
  }

  // ----- What the code does -----

  /** In n steps, control goes from a, with the events t to come, to b, with the events u to come. */
  ghost predicate Steps(p: Program, a: nat, t: seq<Event>, b: nat, u: seq<Event>, n: nat)
    decreases n
  {
    if n == 0 then a == b && t == u
    else a < |p.items| && if p.items[a].Silent() then Steps(p, p.SilentNext(a), t, b, u, n - 1)
      else t != [] && p.Allowed(a, t[0]) && Steps(p, p.Next(a, t[0]), t[1..], b, u, n - 1)
  }

  lemma {:induction false} StepsOn(p: Program, a: nat, t: seq<Event>, b: nat, u: seq<Event>, n: nat, c: nat,
      w: seq<Event>, m: nat)
    requires Steps(p, a, t, b, u, n) && Steps(p, b, u, c, w, m)
    ensures Steps(p, a, t, c, w, n + m)
    decreases n
  {
    if n > 0 {
      if p.items[a].Silent() {
        StepsOn(p, p.SilentNext(a), t, b, u, n - 1, c, w, m);
      } else {
        StepsOn(p, p.Next(a, t[0]), t[1..], b, u, n - 1, c, w, m);
      }
    }
  }

  /** The items s stand in the list from position a on. */
  ghost predicate Embedded(items: seq<Item>, a: nat, s: seq<Item>) {
    a + |s| <= |items| && forall i: nat {:trigger s[i]} :: i < |s| ==> items[a + i] == s[i]
  }

  lemma EmbeddedParts(items: seq<Item>, a: nat, s: seq<Item>, s': seq<Item>)
    requires Embedded(items, a, s + s')
    ensures Embedded(items, a, s) && Embedded(items, a + |s|, s')
  {
    assert forall i: nat :: i < |s| ==> s[i] == (s + s')[i];
    assert forall i: nat :: i < |s'| ==> s'[i] == (s + s')[|s| + i];
  }

  /** Every label is found where it is defined. */
  ghost predicate Unique(items: seq<Item>) {
    forall i: nat {:trigger Located(items, i)} :: i < |items| ==> Located(items, i)
  }

  predicate Located(items: seq<Item>, i: nat)
    requires i < |items|
  {
    items[i].Label? ==> FindIn(items, items[i].l) == i
  }

  /** Where control goes after a tree: to its label, or on. */
  function Target(p: Program, tlab: nat, flab: nat, v: bool, end: nat): nat {
    if v && tlab != 0 then p.Find(tlab) else if !v && flab != 0 then p.Find(flab) else end
  }

  ghost predicate Runs(p: Program, a: nat, t: seq<Event>, b: nat, u: seq<Event>) {
    exists n: nat :: Steps(p, a, t, b, u, n)
  }

  lemma RunsOn(p: Program, a: nat, t: seq<Event>, b: nat, u: seq<Event>, c: nat, w: seq<Event>)
    requires Runs(p, a, t, b, u) && Runs(p, b, u, c, w)
    ensures Runs(p, a, t, c, w)
  {
    var n: nat :| Steps(p, a, t, b, u, n);
    var m: nat :| Steps(p, b, u, c, w, m);
    StepsOn(p, a, t, b, u, n, c, w, m);
  }

  lemma RunsOne(p: Program, a: nat, t: seq<Event>)
    requires a < |p.items|
    ensures p.items[a].Silent() ==> Runs(p, a, t, p.SilentNext(a), t)
    ensures !p.items[a].Silent() && t != [] && p.Allowed(a, t[0]) ==> Runs(p, a, t, p.Next(a, t[0]), t[1..])
  {
    if p.items[a].Silent() {
      assert Steps(p, p.SilentNext(a), t, p.SilentNext(a), t, 0) && Steps(p, a, t, p.SilentNext(a), t, 1);
    } else if t != [] && p.Allowed(a, t[0]) {
      assert Steps(p, p.Next(a, t[0]), t[1..], p.Next(a, t[0]), t[1..], 0)
        && Steps(p, a, t, p.Next(a, t[0]), t[1..], 1);
    }
  }

  /** A label at the end, if there is one, is where its jumps go, and is passed. */
  lemma LabelAt(p: Program, a: nat, l: nat, t: seq<Event>)
    requires p.rep == Own() && Unique(p.items) && Embedded(p.items, a, [Label(l)])
    ensures p.Find(l) == a && Runs(p, a, t, a + 1, t)
  {
    assert p.items[a] == [Label(l)][0] && Located(p.items, a);
    RunsOne(p, a, t);
  }

  /** The code for e at a takes the events of its evaluation, and no others, and then control goes
      where the value says. */
  ghost predicate Transfers(p: Program, e: Tree, tlab: nat, flab: nat, next: nat, a: nat, t: seq<Event>)
    requires Fitting(e, tlab, flab) && 0 < next
  {
    var r := Eval(e, t);
    r.Done? ==> Runs(p, a, t, Target(p, tlab, flab, r.value, a + |Listing(e, tlab, flab, next).items|), r.rest)
  }

  ghost predicate Holds(p: Program, e: Tree, tlab: nat, flab: nat, next: nat, a: nat) {
    && Fitting(e, tlab, flab) && 0 < next && p.rep == Own() && Unique(p.items)
    && Embedded(p.items, a, Listing(e, tlab, flab, next).items)
  }

  lemma {:induction false} ListingTransfers(p: Program, e: Tree, tlab: nat, flab: nat, next: nat, a: nat, t: seq<Event>)
    requires Holds(p, e, tlab, flab, next, a)
    ensures Transfers(p, e, tlab, flab, next, a, t)
    decreases e, 2
  {
    match e
    case Compare(_, _) => LeafTransfers(p, e, tlab, flab, next, a, t);
    case Const(_) => LeafTransfers(p, e, tlab, flab, next, a, t);
    case Effect(_) => LeafTransfers(p, e, tlab, flab, next, a, t);
    case Not(x) => ListingTransfers(p, x, flab, tlab, next, a, t);
    case And(_, _) => JunctionTransfers(p, e, tlab, flab, next, a, t);
    case Or(_, _) => JunctionTransfers(p, e, tlab, flab, next, a, t);
    case Choose(_, _, _) => ChooseTransfers(p, e, next, a, t);
    case Right(_, _) => RightTransfers(p, e, tlab, flab, next, a, t);
  }

  lemma {:induction false} RightTransfers(p: Program, e: Tree, tlab: nat, flab: nat, next: nat, a: nat, t: seq<Event>)
    requires Holds(p, e, tlab, flab, next, a) && e.Right?
    ensures Transfers(p, e, tlab, flab, next, a, t)
    decreases e, 1
  {
    var first := Listing(e.first, 0, 0, next);
    var last := Listing(e.last, tlab, flab, first.next);
    var b := a + |first.items|;
    EmbeddedParts(p.items, a, first.items, last.items);
    ListingTransfers(p, e.first, 0, 0, next, a, t);
    if Eval(e, t).Done? {
      var t1 := Eval(e.first, t).rest;
      ListingTransfers(p, e.last, tlab, flab, first.next, b, t1);
      RunsOn(p, a, t, b, t1, Target(p, tlab, flab, Eval(e, t).value, b + |last.items|), Eval(e, t).rest);
    }
  }

  lemma LeafTransfers(p: Program, e: Tree, tlab: nat, flab: nat, next: nat, a: nat, t: seq<Event>)
    requires Holds(p, e, tlab, flab, next, a) && (e.Compare? || e.Const? || e.Effect?)
    ensures Transfers(p, e, tlab, flab, next, a, t)
  {
    var s := Listing(e, tlab, flab, next).items;
    if s != [] {
      assert p.items[a] == s[0];
      RunsOne(p, a, t);
    } else {
      assert Steps(p, a, t, a, t, 0);
    }
  }

  /** Behind code that ends with a label of its own, if it has one: whatever did not leave passes
      it. */
  lemma OwnEnd(p: Program, a: nat, t: seq<Event>, c: nat, u: seq<Event>, l: nat)
    requires p.rep == Own() && Unique(p.items) && Embedded(p.items, c, [Label(l)]) && Runs(p, a, t, c, u)
    ensures Runs(p, a, t, c + 1, u)
  {
    LabelAt(p, c, l, u);
    RunsOn(p, a, t, c, u, c + 1, u);
  }

  /** The parts of the code for And and Or: what the first operand is listed with, the second operand
      at b, and the place behind it, c. */
  datatype Junction = Junction(tl: nat, fl: nat, after: nat, left: Listed, right: Listed, b: nat, c: nat)

  /** The label for an operand that decides: 0 if one must be made. */
  function Decider(e: Tree, tlab: nat, flab: nat): nat {
    if e.And? then flab else tlab
  }

  function JunctionOf(e: Tree, tlab: nat, flab: nat, next: nat, a: nat): Junction
    requires (e.And? || e.Or?) && Fitting(e, tlab, flab) && 0 < next
  {
    var lab := Decider(e, tlab, flab);
    var f, after := if lab != 0 then lab else next, if lab != 0 then next else next + 1;
    var tl, fl := if e.And? then 0 else f, if e.And? then f else 0;
    var left := Listing(e.l, tl, fl, after);
    var right := Listing(e.r, tlab, flab, left.next);
    Junction(tl, fl, after, left, right, a + |left.items|, a + |left.items| + |right.items|)
  }

  lemma JunctionLayout(p: Program, e: Tree, tlab: nat, flab: nat, next: nat, a: nat)
    requires Holds(p, e, tlab, flab, next, a) && (e.And? || e.Or?)
    ensures var j, lab := JunctionOf(e, tlab, flab, next, a), Decider(e, tlab, flab);
      && Holds(p, e.l, j.tl, j.fl, j.after, a) && Holds(p, e.r, tlab, flab, j.left.next, j.b)
      && (lab == 0 ==> Embedded(p.items, j.c, [Label(next)]))
      && a + |Listing(e, tlab, flab, next).items| == if lab == 0 then j.c + 1 else j.c
  {
    var j := JunctionOf(e, tlab, flab, next, a);
    var tail := if Decider(e, tlab, flab) != 0 then [] else [Label(next)];
    assert Listing(e, tlab, flab, next).items == j.left.items + (j.right.items + tail);
    EmbeddedParts(p.items, a, j.left.items, j.right.items + tail);
    EmbeddedParts(p.items, j.b, j.right.items, tail);
  }

  lemma {:induction false} JunctionTransfers(p: Program, e: Tree, tlab: nat, flab: nat, next: nat, a: nat,
      t: seq<Event>)
    requires Holds(p, e, tlab, flab, next, a) && (e.And? || e.Or?)
    ensures Transfers(p, e, tlab, flab, next, a, t)
    decreases e, 1
  {
    var j := JunctionOf(e, tlab, flab, next, a);
    JunctionLayout(p, e, tlab, flab, next, a);
    JunctionEval(e, t);
    var r1 := Eval(e.l, t);
    if r1.Done? {
      FirstRuns(p, e.l, j.tl, j.fl, j.after, a, t, r1);
      var r2 := Eval(e.r, r1.rest);
      if r1.value == e.And? && r2.Done? {
        FirstRuns(p, e.r, tlab, flab, j.left.next, j.b, r1.rest, r2);
      }
      JunctionRuns(p, a, t, j.b, j.c, tlab, flab, e.And?, next, r1, r2);
    }
  }

  lemma {:induction false} JunctionEval(e: Tree, t: seq<Event>)
    requires e.And? || e.Or?
    ensures var r := Eval(e.l, t);
      Eval(e, t) == if r.Done? && r.value == e.And? then Eval(e.r, r.rest) else r
  {
  }

  /** An operand, with its evaluation given. */
  lemma FirstRuns(p: Program, e: Tree, tlab: nat, flab: nat, next: nat, a: nat, t: seq<Event>, r: Result)
    requires Holds(p, e, tlab, flab, next, a) && r == Eval(e, t) && r.Done?
    ensures Runs(p, a, t, Target(p, tlab, flab, r.value, a + |Listing(e, tlab, flab, next).items|), r.rest)
    decreases e, 3
  {
    ListingTransfers(p, e, tlab, flab, next, a, t);
  }

  /** Two operands, the second of which is evaluated if the first has the value goOn. A first operand
      with the other value leaves for the label given, or else for a label at the end. */
  lemma JunctionRuns(p: Program, a: nat, t: seq<Event>, b: nat, c: nat, tlab: nat, flab: nat, goOn: bool, l: nat,
      r1: Result, r2: Result)
    requires p.rep == Own() && Unique(p.items) && (tlab == 0 || flab == 0)
    requires var lab := if goOn then flab else tlab;
      && (lab == 0 ==> Embedded(p.items, c, [Label(l)]))
      && (r1.Done? ==> Runs(p, a, t, if r1.value == goOn then b else p.Find(if lab != 0 then lab else l), r1.rest))
    requires r1.Done? && r1.value == goOn && r2.Done? ==>
      Runs(p, b, r1.rest, Target(p, tlab, flab, r2.value, c), r2.rest)
    ensures var lab := if goOn then flab else tlab;
      var end := if lab == 0 then c + 1 else c;
      && (r1.Done? && r1.value != goOn ==> Runs(p, a, t, Target(p, tlab, flab, r1.value, end), r1.rest))
      && (r1.Done? && r1.value == goOn && r2.Done? ==> Runs(p, a, t, Target(p, tlab, flab, r2.value, end), r2.rest))
  {
    var lab := if goOn then flab else tlab;
    if r1.Done? {
      if r1.value != goOn {
        if lab == 0 {
          LabelAt(p, c, l, r1.rest);
          OwnEnd(p, a, t, c, r1.rest, l);
        }
      } else if r2.Done? {
        RunsOn(p, a, t, b, r1.rest, Target(p, tlab, flab, r2.value, c), r2.rest);
        if lab == 0 && Target(p, tlab, flab, r2.value, c) == c {
          OwnEnd(p, a, t, c, r2.rest, l);
        }
      }
    }
  }

  /** The parts of the code for a choice: the test at a, the first alternative at b, the jump over
      the second at c, its label, the second at c + 2, and the last label at d. */
  datatype Layout = Layout(test: Listed, yes: Listed, no: Listed, b: nat, c: nat, d: nat)

  function LayoutOf(e: Tree, next: nat, a: nat): Layout
    requires e.Choose? && e.IsEffect() && 0 < next
  {
    var test := Listing(e.cond, 0, next, next + 2);
    var yes := Listing(e.yes, 0, 0, test.next);
    var no := Listing(e.no, 0, 0, yes.next);
    Layout(test, yes, no, a + |test.items|, a + |test.items| + |yes.items|,
      a + |test.items| + |yes.items| + 2 + |no.items|)
  }

  lemma ChooseLayout(p: Program, e: Tree, next: nat, a: nat)
    requires Holds(p, e, 0, 0, next, a) && e.Choose?
    ensures var s := LayoutOf(e, next, a);
      && Holds(p, e.cond, 0, next, next + 2, a) && Holds(p, e.yes, 0, 0, s.test.next, s.b)
         && Holds(p, e.no, 0, 0, s.yes.next, s.c + 2)
      && Embedded(p.items, s.c, [Jump(next + 1)]) && Embedded(p.items, s.c + 1, [Label(next)])
         && Embedded(p.items, s.d, [Label(next + 1)])
      && s.d + 1 == a + |Listing(e, 0, 0, next).items|
  {
    var s := LayoutOf(e, next, a);
    FiveParts(p.items, a, s.test.items, s.yes.items, next, s.no.items);
  }

  lemma FiveParts(items: seq<Item>, a: nat, test: seq<Item>, yes: seq<Item>, l: nat, no: seq<Item>)
    requires Embedded(items, a, test + (yes + ([Jump(l + 1)] + ([Label(l)] + (no + [Label(l + 1)])))))
    ensures Embedded(items, a, test) && Embedded(items, a + |test|, yes)
    ensures Embedded(items, a + |test| + |yes|, [Jump(l + 1)]) && Embedded(items, a + |test| + |yes| + 1, [Label(l)])
    ensures Embedded(items, a + |test| + |yes| + 2, no)
    ensures Embedded(items, a + |test| + |yes| + 2 + |no|, [Label(l + 1)])
  {
    var s4 := no + [Label(l + 1)];
    var s3 := [Label(l)] + s4;
    var s2 := [Jump(l + 1)] + s3;
    var c := a + |test| + |yes|;
    EmbeddedParts(items, a, test, yes + s2);
    EmbeddedParts(items, a + |test|, yes, s2);
    EmbeddedParts(items, c, [Jump(l + 1)], s3);
    EmbeddedParts(items, c + 1, [Label(l)], s4);
    EmbeddedParts(items, c + 2, no, [Label(l + 1)]);
  }

  /** The first alternative, and the jump over the second. */
  lemma YesRuns(p: Program, a: nat, t: seq<Event>, b: nat, t1: seq<Event>, c: nat, t2: seq<Event>, d: nat, l: nat)
    requires p.rep == Own() && Unique(p.items) && Embedded(p.items, c, [Jump(l)]) && Embedded(p.items, d, [Label(l)])
    requires Runs(p, a, t, b, t1) && Runs(p, b, t1, c, t2)
    ensures Runs(p, a, t, d + 1, t2)
  {
    assert p.items[c] == [Jump(l)][0];
    LabelAt(p, d, l, t2);
    RunsOne(p, c, t2);
    RunsOn(p, c, t2, d, t2, d + 1, t2);
    RunsOn(p, b, t1, c, t2, d + 1, t2);
    RunsOn(p, a, t, b, t1, d + 1, t2);
  }

  /** The second alternative, behind its label. */
  lemma NoRuns(p: Program, a: nat, t: seq<Event>, c: nat, l0: nat, t1: seq<Event>, d: nat, l1: nat, t2: seq<Event>)
    requires p.rep == Own() && Unique(p.items) && Embedded(p.items, c, [Label(l0)]) && Embedded(p.items, d, [Label(l1)])
    requires Runs(p, a, t, p.Find(l0), t1) && Runs(p, c + 1, t1, d, t2)
    ensures Runs(p, a, t, d + 1, t2)
  {
    LabelAt(p, c, l0, t1);
    LabelAt(p, d, l1, t2);
    RunsOn(p, c, t1, c + 1, t1, d, t2);
    RunsOn(p, c, t1, d, t2, d + 1, t2);
    RunsOn(p, a, t, c, t1, d + 1, t2);
  }

  lemma TestRuns(p: Program, e: Tree, flab: nat, next: nat, a: nat, t: seq<Event>, r: Result)
    requires Holds(p, e, 0, flab, next, a) && flab != 0 && r == Eval(e, t) && r.Done?
    ensures Runs(p, a, t, if r.value then a + |Listing(e, 0, flab, next).items| else p.Find(flab), r.rest)
    decreases e, 3
  {
    ListingTransfers(p, e, 0, flab, next, a, t);
  }

  lemma EffectRuns(p: Program, e: Tree, next: nat, a: nat, t: seq<Event>, r: Result)
    requires Holds(p, e, 0, 0, next, a) && r == Eval(e, t) && r.Done?
    ensures Runs(p, a, t, a + |Listing(e, 0, 0, next).items|, r.rest)
    decreases e, 3
  {
    ListingTransfers(p, e, 0, 0, next, a, t);
  }

  lemma ChooseTransfers(p: Program, e: Tree, next: nat, a: nat, t: seq<Event>)
    requires Holds(p, e, 0, 0, next, a) && e.Choose?
    ensures Transfers(p, e, 0, 0, next, a, t)
    decreases e, 1
  {
    var s, r1 := LayoutOf(e, next, a), Eval(e.cond, t);
    if r1.Done? {
      var r2 := Eval(if r1.value then e.yes else e.no, r1.rest);
      if r2.Done? {
        if r1.value {
          ChooseYes(p, e, next, a, t, s, r1, r2);
        } else {
          ChooseNo(p, e, next, a, t, s, r1, r2);
        }
        ChooseLayout(p, e, next, a);
      }
    }
  }

  lemma ChooseYes(p: Program, e: Tree, next: nat, a: nat, t: seq<Event>, s: Layout, r1: Result, r2: Result)
    requires Holds(p, e, 0, 0, next, a) && e.Choose? && s == LayoutOf(e, next, a)
    requires r1 == Eval(e.cond, t) && r1.Done? && r1.value && r2 == Eval(e.yes, r1.rest) && r2.Done?
    ensures Runs(p, a, t, s.d + 1, r2.rest)
    decreases e, 0
  {
    ChooseLayout(p, e, next, a);
    TestRuns(p, e.cond, next, next + 2, a, t, r1);
    EffectRuns(p, e.yes, s.test.next, s.b, r1.rest, r2);
    YesRuns(p, a, t, s.b, r1.rest, s.c, r2.rest, s.d, next + 1);
  }

  lemma ChooseNo(p: Program, e: Tree, next: nat, a: nat, t: seq<Event>, s: Layout, r1: Result, r2: Result)
    requires Holds(p, e, 0, 0, next, a) && e.Choose? && s == LayoutOf(e, next, a)
    requires r1 == Eval(e.cond, t) && r1.Done? && !r1.value && r2 == Eval(e.no, r1.rest) && r2.Done?
    ensures Runs(p, a, t, s.d + 1, r2.rest)
    decreases e, 0
  {
    ChooseLayout(p, e, next, a);
    TestRuns(p, e.cond, next, next + 2, a, t, r1);
    EffectRuns(p, e.no, s.yes.next, s.c + 2, r1.rest, r2);
    NoRuns(p, a, t, s.c + 1, next, r1.rest, s.d, next + 1, r2.rest);
  }
}
