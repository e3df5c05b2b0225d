/** Reading the cheapest cover back out of the labels. */
module Reducer {
  import opened Grammar
  import opened Labeller

  lemma {:induction false} CostOfConcat(rules: seq<Rule>, a: seq<Cover>, b: seq<Cover>)
    ensures CostOfAll(rules, a + b) == CostOfAll(rules, a) + CostOfAll(rules, b)
  {
    if a == [] {
      assert a + b == b;
    } else {
      assert (a + b)[1..] == a[1..] + b;
      CostOfConcat(rules, a[1..], b);
    }
  }

  // ----- Labels are least costs -----

  /** Covers for the nonterminals of a pattern matched at t. */
  ghost predicate CoversKids(rules: seq<Rule>, p: Pattern, t: Tree, cs: seq<Cover>) {
    && Matches(p, t) && |cs| == |Nts(p)| == |Kids(p, t)|
    && (forall i :: 0 <= i < |cs| ==> Derives(rules, cs[i], Kids(p, t)[i], Nts(p)[i]))
  }

  lemma {:induction false} SplitCovers(rules: seq<Rule>, l: Pattern, r: Pattern, tl: Tree, tr: Tree, op: nat,
      cs: seq<Cover>) returns (k: nat)
    requires CoversKids(rules, PBinary(op, l, r), Binary(op, tl, tr), cs)
    ensures k <= |cs| && CoversKids(rules, l, tl, cs[..k]) && CoversKids(rules, r, tr, cs[k..])
    ensures CostOfAll(rules, cs) == CostOfAll(rules, cs[..k]) + CostOfAll(rules, cs[k..])
  {
    KidsMatchNts(l, tl);
    KidsMatchNts(r, tr);
    k := |Nts(l)|;
    assert cs == cs[..k] + cs[k..];
    CostOfConcat(rules, cs[..k], cs[k..]);
    var p, t := PBinary(op, l, r), Binary(op, tl, tr);
    forall i | 0 <= i < |cs| - k ensures Derives(rules, cs[k..][i], Kids(r, tr)[i], Nts(r)[i]) {
      assert Derives(rules, cs[k + i], Kids(p, t)[k + i], Nts(p)[k + i]);
    }
  }

  /** No cover is cheaper than the label. */
  lemma {:induction false} LabelIsLeast(rules: seq<Rule>, nts: nat, t: Labelled, c: Cover, nt: nat)
    requires (forall i: nat :: i < |rules| ==> ValidRule(rules[i], nts)) && Done(rules, nts, t) && nt < nts
    requires Derives(rules, c, Erase(t), nt)
    ensures t.cost[nt] <= CostOf(rules, c)
    decreases c, t, 1
  {
    var rule := rules[c.r];
    PatternIsLeast(rules, nts, rule.pattern, t, c.kids);
    if !rule.pattern.Nonterm? {
      assert Applies(rule, ShapeOf(t));
    }
  }

  /** The labels of a pattern's nonterminals cost no more than covers for them. */
  lemma {:induction false} PatternIsLeast(rules: seq<Rule>, nts: nat, p: Pattern, t: Labelled, cs: seq<Cover>)
    requires (forall i: nat :: i < |rules| ==> ValidRule(rules[i], nts)) && Done(rules, nts, t)
    requires CoversKids(rules, p, Erase(t), cs)
    ensures PatternCost(p, t) <= CostOfAll(rules, cs)
    decreases cs, t, 0
  {
    match p
    case Nonterm(nt) =>
      assert Derives(rules, cs[0], Kids(p, Erase(t))[0], Nts(p)[0]);
      var r := cs[0].r;
      assert rules[r].lhs == nt;
      LabelIsLeast(rules, nts, t, cs[0], nt);
      assert cs[1..] == [];
    case PLeaf(_) =>
    case PUnary(_, l) =>
      assert CoversKids(rules, l, Erase(t.left), cs);
      PatternIsLeast(rules, nts, l, t.left, cs);
    case PBinary(op, l, r) =>
      var k := SplitCovers(rules, l, r, Erase(t.left), Erase(t.right), op, cs);
      assert (k == |cs| ==> cs[..k] == cs) && (k == 0 ==> cs[k..] == cs);
      PatternIsLeast(rules, nts, l, t.left, cs[..k]);
      PatternIsLeast(rules, nts, r, t.right, cs[k..]);
  }

  // ----- Reading the cover -----

  /** The labelled subtrees at a pattern's nonterminals, from left to right. */
  function LabelledKids(p: Pattern, t: Labelled): seq<Labelled>
    requires Matches(p, Erase(t))
  {
    match p
    case Nonterm(_) => [t]
    case PLeaf(_) => []
    case PUnary(_, l) => LabelledKids(l, t.left)
    case PBinary(_, l, r) => LabelledKids(l, t.left) + LabelledKids(r, t.right)
  }

  function Size(t: Labelled): nat {
    match t
    case LLeaf(_, _, _) => 1
    case LUnary(_, l, _, _) => 1 + Size(l)
    case LBinary(_, l, r, _, _) => 1 + Size(l) + Size(r)
  }

  /** The labels to add up. */
  function KidCosts(ts: seq<Labelled>, nts: seq<nat>): nat
    requires |ts| == |nts|
  {
    if ts == [] then 0
    else (if nts[0] < |ts[0].cost| then ts[0].cost[nts[0]] else MAX_COST) + KidCosts(ts[1..], nts[1..])
  }

  lemma {:induction false} KidCostsConcat(a: seq<Labelled>, m: seq<nat>, b: seq<Labelled>, n: seq<nat>)
    requires |a| == |m| && |b| == |n|
    ensures KidCosts(a + b, m + n) == KidCosts(a, m) + KidCosts(b, n)
  {
    if a == [] {
      assert a + b == b && m + n == n;
    } else {
      assert (a + b)[1..] == a[1..] + b && (m + n)[1..] == m[1..] + n;
      KidCostsConcat(a[1..], m[1..], b, n);
    }
  }

  lemma {:induction false} KidCostBound(ts: seq<Labelled>, nts: seq<nat>, i: nat)
    requires i < |ts| == |nts|
    ensures (if nts[i] < |ts[i].cost| then ts[i].cost[nts[i]] else MAX_COST) <= KidCosts(ts, nts)
  {
    if i > 0 {
      KidCostBound(ts[1..], nts[1..], i - 1);
    }
  }

  /** Kid k of a pattern matched at t is labelled, is the given subtree and is no larger than t. */
  ghost predicate KidFits(rules: seq<Rule>, nts: nat, proper: bool, t: Labelled, k: Labelled, sub: Tree) {
    Done(rules, nts, k) && Erase(k) == sub && Size(k) <= Size(t) && (proper ==> Size(k) < Size(t))
  }

  lemma {:induction false} KidsOf(rules: seq<Rule>, nts: nat, p: Pattern, t: Labelled)
    requires Matches(p, Erase(t)) && Done(rules, nts, t)
    ensures |LabelledKids(p, t)| == |Nts(p)| == |Kids(p, Erase(t))|
    ensures forall i :: 0 <= i < |Nts(p)| ==>
      KidFits(rules, nts, !p.Nonterm?, t, LabelledKids(p, t)[i], Kids(p, Erase(t))[i])
  {
    match p
    case Nonterm(_) =>
    case PLeaf(_) =>
    case PUnary(_, l) =>
      KidsOf(rules, nts, l, t.left);
      forall i | 0 <= i < |Nts(p)| ensures KidFits(rules, nts, true, t, LabelledKids(p, t)[i], Kids(p, Erase(t))[i]) {
        assert KidFits(rules, nts, !l.Nonterm?, t.left, LabelledKids(l, t.left)[i], Kids(l, Erase(t.left))[i]);
      }
    case PBinary(_, l, r) =>
      KidsOf(rules, nts, l, t.left);
      KidsOf(rules, nts, r, t.right);
      var n := |Nts(l)|;
      forall i | 0 <= i < |Nts(p)| ensures KidFits(rules, nts, true, t, LabelledKids(p, t)[i], Kids(p, Erase(t))[i]) {
        if i < n {
          assert KidFits(rules, nts, !l.Nonterm?, t.left, LabelledKids(l, t.left)[i], Kids(l, Erase(t.left))[i]);
        } else {
          assert KidFits(rules, nts, !r.Nonterm?, t.right, LabelledKids(r, t.right)[i - n],
            Kids(r, Erase(t.right))[i - n]);
        }
      }
  }

  /** The costs of the kids add up to the pattern's cost. */
  lemma {:induction false} KidCostsAreCost(rules: seq<Rule>, nts: nat, p: Pattern, t: Labelled)
    requires Matches(p, Erase(t)) && Done(rules, nts, t)
    ensures |LabelledKids(p, t)| == |Nts(p)| && PatternCost(p, t) == KidCosts(LabelledKids(p, t), Nts(p))
  {
    match p
    case Nonterm(_) =>
      assert Nts(p)[1..] == [];
    case PLeaf(_) =>
    case PUnary(_, l) =>
      KidCostsAreCost(rules, nts, l, t.left);
    case PBinary(_, l, r) =>
      KidCostsAreCost(rules, nts, l, t.left);
      KidCostsAreCost(rules, nts, r, t.right);
      KidCostsConcat(LabelledKids(l, t.left), Nts(l), LabelledKids(r, t.right), Nts(r));
  }

  /** A ranking of the nonterminals at a node under which chain rules lead downwards. */
  ghost function Rank(rules: seq<Rule>, nts: nat, t: Labelled): (stamp: seq<nat>)
    requires Done(rules, nts, t)
    ensures Ranks(rules, t, stamp)
  {
    var stamp :| Ranks(rules, t, stamp);
    stamp
  }

  /** Kid k, with goal n, is labelled and comes before (t, nt) in the termination order. */
  ghost predicate KidOk(rules: seq<Rule>, nts: nat, t: Labelled, nt: nat, k: Labelled, n: nat, sub: Tree)
    requires Done(rules, nts, t) && nt < nts
  {
    && Done(rules, nts, k) && n < nts && k.cost[n] < MAX_COST && Erase(k) == sub
    && (Size(k) < Size(t) || (k == t && Rank(rules, nts, t)[n] < Rank(rules, nts, t)[nt]))
  }

  /** r is the rule recorded for nt: its kids come next in the termination order, and their costs
      add up. */
  ghost predicate Recorded(rules: seq<Rule>, nts: nat, t: Labelled, nt: nat, r: nat)
    requires Done(rules, nts, t) && nt < nts
  {
    && r < |rules| && rules[r].lhs == nt && Matches(rules[r].pattern, Erase(t))
    && var (ks, ns, subs) := (LabelledKids(rules[r].pattern, t), Nts(rules[r].pattern),
       Kids(rules[r].pattern, Erase(t)));
       && |ks| == |ns| == |subs|
       && t.cost[nt] == rules[r].cost + KidCosts(ks, ns)
       && (forall i :: 0 <= i < |ks| ==> KidOk(rules, nts, t, nt, ks[i], ns[i], subs[i]))
  }

  lemma RecordedRule(rules: seq<Rule>, nts: nat, t: Labelled, nt: nat)
    requires (forall i: nat :: i < |rules| ==> ValidRule(rules[i], nts)) && Done(rules, nts, t)
    requires nt < nts && t.cost[nt] < MAX_COST
    ensures Recorded(rules, nts, t, nt, Decode(rules, nt, t.rule[nt]))
  {
    var stamp := Rank(rules, nts, t);
    assert Attained(rules, t, stamp, nt);
    var r := Decode(rules, nt, t.rule[nt]);
    var p := rules[r].pattern;
    KidsOf(rules, nts, p, t);
    KidCostsAreCost(rules, nts, p, t);
    var ks, ns := LabelledKids(p, t), Nts(p);
    forall i | 0 <= i < |ks| ensures KidOk(rules, nts, t, nt, ks[i], ns[i], Kids(p, Erase(t))[i]) {
      KidCostBound(ks, ns, i);
      assert KidFits(rules, nts, !p.Nonterm?, t, ks[i], Kids(p, Erase(t))[i]);
    }
  }

  ghost predicate AllDerive(rules: seq<Rule>, cs: seq<Cover>, subs: seq<Tree>, goals: seq<nat>) {
    |cs| <= |subs| == |goals| && forall j :: 0 <= j < |cs| ==> Derives(rules, cs[j], subs[j], goals[j])
  }

  lemma AddDerive(rules: seq<Rule>, cs: seq<Cover>, subs: seq<Tree>, goals: seq<nat>, k: Cover)
    requires AllDerive(rules, cs, subs, goals) && |cs| < |subs| && Derives(rules, k, subs[|cs|], goals[|cs|])
    ensures AllDerive(rules, cs + [k], subs, goals)
  {
  }

  /** One more kid's cover adds that kid's cost. */
  lemma AddCover(rules: seq<Rule>, cs: seq<Cover>, kids: seq<Labelled>, goals: seq<nat>, i: nat, k: Cover)
    requires i < |kids| == |goals| && CostOfAll(rules, cs) == KidCosts(kids[..i], goals[..i])
    requires goals[i] < |kids[i].cost| && CostOf(rules, k) == kids[i].cost[goals[i]]
    ensures CostOfAll(rules, cs + [k]) == KidCosts(kids[..i + 1], goals[..i + 1])
  {
    CostOfConcat(rules, cs, [k]);
    assert [k][1..] == [] && [kids[i]][1..] == [] && [goals[i]][1..] == [];
    KidCostsConcat(kids[..i], goals[..i], [kids[i]], [goals[i]]);
    assert kids[..i + 1] == kids[..i] + [kids[i]] && goals[..i + 1] == goals[..i] + [goals[i]];
  }

  /** Read the cover of t from goal nt. */
  method Reduce(rules: seq<Rule>, nts: nat, t: Labelled, nt: nat) returns (c: Cover)
    requires (forall i: nat :: i < |rules| ==> ValidRule(rules[i], nts)) && Done(rules, nts, t)
    requires nt < nts && t.cost[nt] < MAX_COST
    ensures Derives(rules, c, Erase(t), nt) && CostOf(rules, c) == t.cost[nt]
    decreases Size(t), Rank(rules, nts, t)[nt]
  {
    RecordedRule(rules, nts, t, nt);
    var r := Decode(rules, nt, t.rule[nt]);
    var goals := Nts(rules[r].pattern);
    var kids := LabelledKids(rules[r].pattern, t);
    ghost var subs := Kids(rules[r].pattern, Erase(t));
    var cs := [];
    for i := 0 to |goals|
      invariant |cs| == i && CostOfAll(rules, cs) == KidCosts(kids[..i], goals[..i])
      invariant AllDerive(rules, cs, subs, goals)
    {
      assert KidOk(rules, nts, t, nt, kids[i], goals[i], subs[i]);
      var k := Reduce(rules, nts, kids[i], goals[i]);
      AddCover(rules, cs, kids, goals, i, k);
      AddDerive(rules, cs, subs, goals, k);
      cs := cs + [k];
    }
    assert kids[..|goals|] == kids && goals[..|goals|] == goals;
    c := Cover(r, cs);
    CoverDerives(rules, nts, t, nt, r, cs);
  }

  /** The recorded rule with covers for its kids. */
  lemma CoverDerives(rules: seq<Rule>, nts: nat, t: Labelled, nt: nat, r: nat, cs: seq<Cover>)
    requires Done(rules, nts, t) && nt < nts && Recorded(rules, nts, t, nt, r)
    requires |cs| == |Nts(rules[r].pattern)|
    requires AllDerive(rules, cs, Kids(rules[r].pattern, Erase(t)), Nts(rules[r].pattern))
    requires CostOfAll(rules, cs) == KidCosts(LabelledKids(rules[r].pattern, t), Nts(rules[r].pattern))
    ensures Derives(rules, Cover(r, cs), Erase(t), nt) && CostOf(rules, Cover(r, cs)) == t.cost[nt]
  {
  }

  datatype Option<T> = None | Some(value: T)

  /** Select instructions for a tree: label it, and read back the cover from the goal. The cover is
      a cheapest one; there is none only if every cover costs at least the limit. */
  method Select(rules: seq<Rule>, nts: nat, t: Tree, goal: nat) returns (c: Option<Cover>)
    requires (forall i: nat :: i < |rules| ==> ValidRule(rules[i], nts)) && goal < nts
    ensures c.Some? ==> Covers(rules, c.value, t, goal) && CostOf(rules, c.value) < 0x7fff
    ensures c.Some? ==> forall d :: Covers(rules, d, t, goal) ==> CostOf(rules, c.value) <= CostOf(rules, d)
    ensures c.None? ==> forall d :: Covers(rules, d, t, goal) ==> CostOf(rules, d) >= 0x7fff
  {
    var lt := Label(rules, nts, t);
    forall d | Covers(rules, d, t, goal) ensures lt.cost[goal] <= CostOf(rules, d) {
      DerivesIff(rules, d, t, goal);
      LabelIsLeast(rules, nts, lt, d, goal);
    }
    if lt.cost[goal] < MAX_COST {
      var cover := Reduce(rules, nts, lt, goal);
      DerivesIff(rules, cover, t, goal);
      c := Some(cover);
    } else {
      c := None;
    }
  }
}
