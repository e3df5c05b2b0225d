/** The bottom-up labeller that lburg emits: dynamic programming with closure over chain rules. */
module Labeller {
  import opened Grammar

  const MAX_COST: nat := 0x7fff

  // ----- Rule numbers -----

  /** The rules with left-hand side nt, among the first n, in order. */
  function RulesOf(rules: seq<Rule>, n: nat, nt: nat): seq<nat>
    requires n <= |rules|
  {
    if n == 0 then []
    else if rules[n - 1].lhs == nt then RulesOf(rules, n - 1, nt) + [n - 1]
    else RulesOf(rules, n - 1, nt)
  }

  /** The number under which a state stores rule r: its position, from 1, among those with the same
      left-hand side. */
  function Packed(rules: seq<Rule>, r: nat): nat
    requires r < |rules|
  {
    |RulesOf(rules, r, rules[r].lhs)| + 1
  }

  /** The rule that a state's number stands for; |rules| when there is none. */
  function Decode(rules: seq<Rule>, nt: nat, packed: nat): nat {
    var all := RulesOf(rules, |rules|, nt);
    if 0 < packed <= |all| then all[packed - 1] else |rules|
  }

  lemma {:induction false} RulesOfPrefix(rules: seq<Rule>, m: nat, n: nat, nt: nat)
    requires m <= n <= |rules|
    ensures RulesOf(rules, m, nt) <= RulesOf(rules, n, nt)
    decreases n
  {
    if m < n {
      RulesOfPrefix(rules, m, n - 1, nt);
    }
  }

  /** Decoding undoes packing. */
  lemma DecodePacked(rules: seq<Rule>, r: nat)
    requires r < |rules|
    ensures Packed(rules, r) > 0 && Decode(rules, rules[r].lhs, Packed(rules, r)) == r
  {
    RulesOfPrefix(rules, r + 1, |rules|, rules[r].lhs);
  }

  // ----- Labelled trees -----

  /** A labelled tree: at every node, for every nonterminal, the least cost found and the number of
      the rule that attains it. */
  datatype Labelled =
    | LLeaf(op: nat, cost: seq<nat>, rule: seq<nat>)
    | LUnary(op: nat, left: Labelled, cost: seq<nat>, rule: seq<nat>)
    | LBinary(op: nat, left: Labelled, right: Labelled, cost: seq<nat>, rule: seq<nat>)

  /** A node to be labelled, with its operands labelled. */
  datatype Shape = SLeaf(op: nat) | SUnary(op: nat, left: Labelled) | SBinary(op: nat, left: Labelled, right: Labelled)

  function ShapeOf(t: Labelled): Shape {
    match t
    case LLeaf(op, _, _) => SLeaf(op)
    case LUnary(op, l, _, _) => SUnary(op, l)
    case LBinary(op, l, r, _, _) => SBinary(op, l, r)
  }

  function WithLabels(s: Shape, cost: seq<nat>, rule: seq<nat>): Labelled {
    match s
    case SLeaf(op) => LLeaf(op, cost, rule)
    case SUnary(op, l) => LUnary(op, l, cost, rule)
    case SBinary(op, l, r) => LBinary(op, l, r, cost, rule)
  }

  function Erase(t: Labelled): Tree {
    match t
    case LLeaf(op, _, _) => Leaf(op)
    case LUnary(op, l, _, _) => Unary(op, Erase(l))
    case LBinary(op, l, r, _, _) => Binary(op, Erase(l), Erase(r))
  }

  function EraseShape(s: Shape): Tree {
    match s
    case SLeaf(op) => Leaf(op)
    case SUnary(op, l) => Unary(op, Erase(l))
    case SBinary(op, l, r) => Binary(op, Erase(l), Erase(r))
  }

  /** The cost of a pattern's nonterminals, read from the labels of the matched tree. */
  function PatternCost(p: Pattern, t: Labelled): nat
    requires Matches(p, Erase(t))
  {
    match p
    case Nonterm(nt) => if nt < |t.cost| then t.cost[nt] else MAX_COST
    case PLeaf(_) => 0
    case PUnary(_, l) => PatternCost(l, t.left)
    case PBinary(_, l, r) => PatternCost(l, t.left) + PatternCost(r, t.right)
  }

  function OperandCost(p: Pattern, s: Shape): nat
    requires Matches(p, EraseShape(s))
  {
    match p
    case Nonterm(_) => 0
    case PLeaf(_) => 0
    case PUnary(_, l) => PatternCost(l, s.left)
    case PBinary(_, l, r) => PatternCost(l, s.left) + PatternCost(r, s.right)
  }

  /** A rule that is not a chain rule and matches at the root. */
  predicate Applies(rule: Rule, s: Shape) {
    !rule.pattern.Nonterm? && Matches(rule.pattern, EraseShape(s))
  }

  function BaseCost(rule: Rule, s: Shape): nat
    requires Applies(rule, s)
  {
    OperandCost(rule.pattern, s) + rule.cost
  }

  function IsChain(rule: Rule, x: nat): bool {
    rule.pattern == Nonterm(x)
  }

  predicate ValidRule(rule: Rule, nts: nat) {
    rule.lhs < nts && (rule.pattern.Nonterm? ==> rule.pattern.nt < nts)
  }

  // ----- The state of a node while it is being labelled -----

  /** stamp[nt] is the moment nt's label was last set. */
  datatype State = State(cost: seq<nat>, rule: seq<nat>, stamp: seq<nat>, clock: nat) {

    ghost predicate Shaped(nts: nat) {
      && |cost| == |rule| == |stamp| == nts
      && (forall x: nat :: x < nts ==> cost[x] <= MAX_COST && stamp[x] < clock)
    }

    /** No chain rule from x improves a label. */
    ghost predicate Closed(rules: seq<Rule>, x: nat)
      requires x < |cost|
    {
      forall i: nat :: i < |rules| && IsChain(rules[i], x) && rules[i].lhs < |cost| ==>
        cost[rules[i].lhs] <= cost[x] + rules[i].cost
    }

    /** The label of x, if set, comes from its rule: a matching base rule at its cost, or a chain
        rule from a nonterminal labelled before, whose cost may have dropped since. */
    ghost predicate Explained(rules: seq<Rule>, s: Shape, x: nat)
      requires x < |cost| == |rule| == |stamp|
    {
      cost[x] < MAX_COST ==>
        var r := Decode(rules, x, rule[x]);
        && r < |rules| && rules[r].lhs == x
        && (if rules[r].pattern.Nonterm? then FromChain(rules[r], x)
              else Applies(rules[r], s) && cost[x] == BaseCost(rules[r], s))
    }

    ghost predicate FromChain(rule: Rule, x: nat)
      requires x < |cost| == |stamp| && rule.pattern.Nonterm?
    {
      var y := rule.pattern.nt;
      y < |cost| && cost[y] + rule.cost <= cost[x] && (cost[y] + rule.cost == cost[x] ==> stamp[y] < stamp[x])
    }

    ghost predicate Sound(rules: seq<Rule>, s: Shape) {
      |cost| == |rule| == |stamp| && forall x: nat {:trigger Explained(rules, s, x)} ::
        x < |cost| ==> Explained(rules, s, x)
    }
  }

  /** Labels have only improved, and those that cost at most c are as they were. */
  ghost predicate Improves(a: State, b: State, c: nat) {
    && |a.cost| == |b.cost| == |a.rule| == |b.rule| == |a.stamp| == |b.stamp|
    && (forall x: nat :: x < |a.cost| ==> b.cost[x] <= a.cost[x])
    && (forall x: nat :: x < |a.cost| && a.cost[x] <= c ==> b.cost[x] == a.cost[x])
  }

  /** Whatever was closed still is, and whatever has changed is closed, except perhaps `but`. */
  ghost predicate KeepsClosed(rules: seq<Rule>, a: State, b: State, but: nat)
    requires |a.cost| == |b.cost|
  {
    forall x: nat {:trigger b.Closed(rules, x)} ::
      x < |a.cost| && x != but && (a.Closed(rules, x) || b.cost[x] < a.cost[x]) ==> b.Closed(rules, x)
  }

  /** Setting a better label keeps every label explained. */
  lemma SetLabel(rules: seq<Rule>, s: Shape, nts: nat, a: State, r: nat, c: nat)
    requires a.Shaped(nts) && a.Sound(rules, s) && r < |rules| && ValidRule(rules[r], nts)
    requires c < a.cost[rules[r].lhs]
    requires if rules[r].pattern.Nonterm? then c == a.cost[rules[r].pattern.nt] + rules[r].cost
      else Applies(rules[r], s) && c == BaseCost(rules[r], s)
    ensures var L := rules[r].lhs;
      var b := State(a.cost[L := c], a.rule[L := Packed(rules, r)], a.stamp[L := a.clock], a.clock + 1);
      b.Shaped(nts) && b.Sound(rules, s)
  {
    var L := rules[r].lhs;
    var b := State(a.cost[L := c], a.rule[L := Packed(rules, r)], a.stamp[L := a.clock], a.clock + 1);
    DecodePacked(rules, r);
    forall x: nat | x < nts ensures b.Explained(rules, s, x) {
      assert a.Explained(rules, s, x);
    }
  }

  function Sum(s: seq<nat>): nat {
    if s == [] then 0 else s[0] + Sum(s[1..])
  }

  lemma {:induction false} SumMonotone(a: seq<nat>, b: seq<nat>)
    requires |a| == |b| && forall x: nat :: x < |a| ==> b[x] <= a[x]
    ensures Sum(b) <= Sum(a)
    ensures (exists x: nat :: x < |a| && b[x] < a[x]) ==> Sum(b) < Sum(a)
  {
    if a != [] {
      SumMonotone(a[1..], b[1..]);
      assert forall x: nat :: 0 < x < |a| ==> a[x] == a[1..][x - 1] && b[x] == b[1..][x - 1];
    }
  }

  /** The state that a node's labels are collected in. */
  class NodeState {
    const rules: seq<Rule>
    const nts: nat              // nonterminals are numbered below this
    const shape: Shape
    var cost: seq<nat>
    var rule: seq<nat>
    ghost var stamp: seq<nat>
    ghost var clock: nat

    ghost function Snap(): State
      reads this
    {
      State(cost, rule, stamp, clock)
    }

    ghost predicate Good()
      reads this
    {
      && (forall i: nat :: i < |rules| ==> ValidRule(rules[i], nts))
      && Snap().Shaped(nts) && Snap().Sound(rules, shape)
    }

    constructor (rules: seq<Rule>, nts: nat, shape: Shape)
      requires forall i: nat :: i < |rules| ==> ValidRule(rules[i], nts)
      ensures this.rules == rules && this.nts == nts && this.shape == shape && Good()
      ensures forall x: nat :: x < nts ==> Snap().Closed(rules, x)
    {
      this.rules, this.nts, this.shape := rules, nts, shape;
      cost := seq(nts, _ => MAX_COST);
      rule := seq(nts, _ => 0);
      stamp := seq(nts, _ => 0);
      clock := 1;
    }

    /** Rule r yields its left-hand side at cost c: keep it if that is better, and then try the
        chain rules from there. */
    method Record(r: nat, c: nat)
      requires Good() && r < |rules|
      requires if rules[r].pattern.Nonterm? then c == cost[rules[r].pattern.nt] + rules[r].cost
               else Applies(rules[r], shape) && c == BaseCost(rules[r], shape)
      modifies this`cost, this`rule, this`stamp, this`clock
      ensures Good() && cost[rules[r].lhs] <= c
      ensures c < old(cost)[rules[r].lhs] || Snap() == old(Snap())
      ensures |old(cost)| == |cost| && KeepsClosed(rules, old(Snap()), Snap(), nts)
      ensures forall d: nat :: d <= c ==> Improves(old(Snap()), Snap(), d)
      decreases Sum(cost), 0, 0
    {
      var L := rules[r].lhs;
      if c < cost[L] {
        ghost var a := Snap();
        SetBetter(r, c);
        StillClosed(rules, a, Snap(), L);
        ghost var b := Snap();
        Closure(L, c);
        KeepsClosedThrough(rules, a, b, Snap(), L);
      }
    }

    /** Set the label of the left-hand side of rule r, which offers less. */
    method SetBetter(r: nat, c: nat)
      requires Good() && r < |rules| && c < cost[rules[r].lhs]
      requires if rules[r].pattern.Nonterm? then c == cost[rules[r].pattern.nt] + rules[r].cost
               else Applies(rules[r], shape) && c == BaseCost(rules[r], shape)
      modifies this`cost, this`rule, this`stamp, this`clock
      ensures Good() && cost == old(cost)[rules[r].lhs := c] && Sum(cost) < Sum(old(cost))
      ensures rule == old(rule)[rules[r].lhs := Packed(rules, r)] && stamp == old(stamp)[rules[r].lhs := old(clock)]
    {
      var L := rules[r].lhs;
      ghost var a := Snap();
      SetLabel(rules, shape, nts, a, r, c);
      cost := cost[L := c];
      rule := rule[L := Packed(rules, r)];
      stamp := stamp[L := clock];
      clock := clock + 1;
      SumMonotone(a.cost, cost);
    }

    /** Try the chain rules from x, which costs c, latest rule first. */
    method Closure(x: nat, c: nat)
      requires Good() && x < nts && cost[x] == c
      modifies this`cost, this`rule, this`stamp, this`clock
      ensures Good()
      ensures Improves(old(Snap()), Snap(), c)
      ensures KeepsClosed(rules, old(Snap()), Snap(), nts) && Snap().Closed(rules, x)
      decreases Sum(cost), 1, 0
    {
      ghost var a := Snap();
      var i := |rules|;
      while i > 0
        invariant i <= |rules| && Good() && cost[x] == c
        invariant Improves(a, Snap(), c) && KeepsClosed(rules, a, Snap(), x)
        invariant forall j: nat :: i <= j < |rules| && IsChain(rules[j], x) ==> cost[rules[j].lhs] <= c + rules[j].cost
      {
        i := i - 1;
        if IsChain(rules[i], x) {
          SumMonotone(a.cost, cost);
          ghost var b := Snap();
          Record(i, c + rules[i].cost);
          ImprovesTransitive(a, b, Snap(), c);
          KeepsClosedTransitive(rules, a, b, Snap(), x);
        }
      }
    }
  }

  /** Improving the label of L leaves every other closed nonterminal closed. */
  lemma StillClosed(rules: seq<Rule>, a: State, b: State, L: nat)
    requires L < |a.cost| && |b.cost| == |a.cost| && b.cost == a.cost[L := b.cost[L]] && b.cost[L] < a.cost[L]
    ensures forall x: nat {:trigger b.Closed(rules, x)} ::
      x < |a.cost| && x != L && a.Closed(rules, x) ==> b.Closed(rules, x)
  {
    forall x: nat | x < |a.cost| && x != L && a.Closed(rules, x) ensures b.Closed(rules, x) {
    }
  }

  /** Setting L's label and closing from it closes all that was closed or has changed. */
  lemma KeepsClosedThrough(rules: seq<Rule>, a: State, b: State, c: State, L: nat)
    requires L < |a.cost| == |b.cost| == |c.cost| && b.cost == a.cost[L := b.cost[L]]
    requires forall x: nat :: x < |a.cost| ==> c.cost[x] <= b.cost[x]
    requires forall x: nat {:trigger b.Closed(rules, x)} ::
      x < |a.cost| && x != L && a.Closed(rules, x) ==> b.Closed(rules, x)
    requires KeepsClosed(rules, b, c, |a.cost|) && c.Closed(rules, L)
    ensures KeepsClosed(rules, a, c, |a.cost|)
  {
    forall x: nat | x < |a.cost| && (a.Closed(rules, x) || c.cost[x] < a.cost[x]) ensures c.Closed(rules, x) {
      assert x != L && a.Closed(rules, x) ==> b.Closed(rules, x);
    }
  }

  lemma ImprovesTransitive(a: State, b: State, c: State, d: nat)
    requires Improves(a, b, d) && Improves(b, c, d)
    ensures Improves(a, c, d)
  {
  }

  lemma KeepsClosedTransitive(rules: seq<Rule>, a: State, b: State, c: State, but: nat)
    requires |a.cost| == |b.cost| == |c.cost| && KeepsClosed(rules, a, b, but) && KeepsClosed(rules, b, c, |a.cost|)
    requires forall x: nat :: x < |a.cost| ==> c.cost[x] <= b.cost[x]
    ensures KeepsClosed(rules, a, c, but)
  {
    forall x: nat | x < |a.cost| && x != but && (a.Closed(rules, x) || c.cost[x] < a.cost[x])
      ensures c.Closed(rules, x) {
      assert a.Closed(rules, x) || b.cost[x] < a.cost[x] ==> b.Closed(rules, x);
    }
  }

  // ----- Labelling a tree -----

  /** x's label comes from a rule: a matching base rule, or a chain rule from a lower rank. */
  ghost predicate Attained(rules: seq<Rule>, t: Labelled, stamp: seq<nat>, x: nat)
    requires x < |t.cost| == |t.rule| == |stamp|
  {
    t.cost[x] < MAX_COST ==>
      var r := Decode(rules, x, t.rule[x]);
      && r < |rules| && rules[r].lhs == x
      && (if rules[r].pattern.Nonterm? then
            var y := rules[r].pattern.nt;
            y < |t.cost| && t.cost[y] + rules[r].cost == t.cost[x] && stamp[y] < stamp[x]
          else Applies(rules[r], ShapeOf(t)) && t.cost[x] == BaseCost(rules[r], ShapeOf(t)))
  }

  ghost predicate Ranks(rules: seq<Rule>, t: Labelled, stamp: seq<nat>) {
    |t.cost| == |t.rule| == |stamp| && forall x: nat {:trigger Attained(rules, t, stamp, x)} ::
      x < |t.cost| ==> Attained(rules, t, stamp, x)
  }

  /** No rule improves a label of this node. */
  ghost predicate Tight(rules: seq<Rule>, t: Labelled) {
    && (forall x: nat :: x < |t.cost| ==> t.cost[x] <= MAX_COST)
    && (forall i: nat :: i < |rules| && Applies(rules[i], ShapeOf(t)) && rules[i].lhs < |t.cost| ==>
          t.cost[rules[i].lhs] <= BaseCost(rules[i], ShapeOf(t)))
    && (forall i: nat ::
          i < |rules| && rules[i].pattern.Nonterm? && rules[i].lhs < |t.cost| && rules[i].pattern.nt < |t.cost| ==>
          t.cost[rules[i].lhs] <= t.cost[rules[i].pattern.nt] + rules[i].cost)
  }

  /** Every node of the tree is labelled: no rule improves a label and a rule attains it. */
  ghost predicate Done(rules: seq<Rule>, nts: nat, t: Labelled)
    decreases t
  {
    && |t.cost| == |t.rule| == nts && Tight(rules, t)
    && (exists stamp :: Ranks(rules, t, stamp))
    && (t.LUnary? ==> Done(rules, nts, t.left))
    && (t.LBinary? ==> Done(rules, nts, t.left) && Done(rules, nts, t.right))
  }

  /** Label one node whose operands are labelled. */
  method LabelNode(rules: seq<Rule>, nts: nat, shape: Shape) returns (t: Labelled)
    requires forall i: nat :: i < |rules| ==> ValidRule(rules[i], nts)
    ensures ShapeOf(t) == shape && |t.cost| == |t.rule| == nts && Tight(rules, t)
    ensures exists stamp :: Ranks(rules, t, stamp)
  {
    var p := new NodeState(rules, nts, shape);
    for i := 0 to |rules|
      invariant p.Good() && forall x: nat :: x < nts ==> p.Snap().Closed(rules, x)
      invariant forall j: nat :: j < i && Applies(rules[j], shape) ==> p.cost[rules[j].lhs] <= BaseCost(rules[j], shape)
    {
      if Applies(rules[i], shape) {
        ghost var a := p.Snap();
        p.Record(i, BaseCost(rules[i], shape));
        assert Improves(a, p.Snap(), 0);
      }
    }
    t := WithLabels(shape, p.cost, p.rule);
    AllClosed(rules, p.Snap(), t);
  }

  /** When all is closed, recorded chain rules are exact and lead to lower ranks. */
  lemma AllClosed(rules: seq<Rule>, a: State, t: Labelled)
    requires a.Sound(rules, ShapeOf(t)) && t.cost == a.cost && t.rule == a.rule
    requires forall x: nat :: x < |a.cost| ==> a.Closed(rules, x)
    ensures Ranks(rules, t, a.stamp)
    ensures forall i: nat ::
      i < |rules| && rules[i].pattern.Nonterm? && rules[i].lhs < |t.cost| && rules[i].pattern.nt < |t.cost| ==>
        t.cost[rules[i].lhs] <= t.cost[rules[i].pattern.nt] + rules[i].cost
  {
    forall i: nat | i < |rules| && rules[i].pattern.Nonterm? && rules[i].lhs < |t.cost|
      && rules[i].pattern.nt < |t.cost|
      ensures t.cost[rules[i].lhs] <= t.cost[rules[i].pattern.nt] + rules[i].cost
    {
      assert a.Closed(rules, rules[i].pattern.nt) && IsChain(rules[i], rules[i].pattern.nt);
    }
    forall x: nat | x < |t.cost| ensures Attained(rules, t, a.stamp, x) {
      assert a.Explained(rules, ShapeOf(t), x);
    }
  }

  /** Label a tree from the leaves up. */
  method Label(rules: seq<Rule>, nts: nat, t: Tree) returns (lt: Labelled)
    requires forall i: nat :: i < |rules| ==> ValidRule(rules[i], nts)
    ensures Erase(lt) == t && Done(rules, nts, lt)
    decreases t
  {
    match t {
      case Leaf(op) =>
        lt := LabelNode(rules, nts, SLeaf(op));
      case Unary(op, l) =>
        var ll := Label(rules, nts, l);
        lt := LabelNode(rules, nts, SUnary(op, ll));
      case Binary(op, l, r) =>
        var ll := Label(rules, nts, l);
        var lr := Label(rules, nts, r);
        lt := LabelNode(rules, nts, SBinary(op, ll, lr));
    }
  }
}
