/** Tree grammars: what it means to cover a tree, and at what cost. */
module Grammar {

  /** Subject trees; operators have at most two operands. */
  datatype Tree = Leaf(op: nat) | Unary(op: nat, left: Tree) | Binary(op: nat, left: Tree, right: Tree)

  /** Rule patterns: trees whose leaves may be nonterminals. */
  datatype Pattern = Nonterm(nt: nat) | PLeaf(op: nat) | PUnary(op: nat, left: Pattern)
      | PBinary(op: nat, left: Pattern, right: Pattern)

  /** lhs derives pattern at a constant cost. */
  datatype Rule = Rule(lhs: nat, pattern: Pattern, cost: nat)

  function Matches(p: Pattern, t: Tree): bool {
    match p
    case Nonterm(_) => true
    case PLeaf(op) => t.Leaf? && t.op == op
    case PUnary(op, l) => t.Unary? && t.op == op && Matches(l, t.left)
    case PBinary(op, l, r) => t.Binary? && t.op == op && Matches(l, t.left) && Matches(r, t.right)
  }

  /** The nonterminals of a pattern, from left to right. */
  function Nts(p: Pattern): seq<nat> {
    match p
    case Nonterm(nt) => [nt]
    case PLeaf(_) => []
    case PUnary(_, l) => Nts(l)
    case PBinary(_, l, r) => Nts(l) + Nts(r)
  }

  /** The subtrees that stand at the nonterminals of a pattern, from left to right. */
  function Kids(p: Pattern, t: Tree): seq<Tree>
    requires Matches(p, t)
  {
    match p
    case Nonterm(_) => [t]
    case PLeaf(_) => []
    case PUnary(_, l) => Kids(l, t.left)
    case PBinary(_, l, r) => Kids(l, t.left) + Kids(r, t.right)
  }

  lemma {:induction false} KidsMatchNts(p: Pattern, t: Tree)
    requires Matches(p, t)
    ensures |Kids(p, t)| == |Nts(p)|
  {
    match p
    case PUnary(_, l) => KidsMatchNts(l, t.left);
    case PBinary(_, l, r) => KidsMatchNts(l, t.left); KidsMatchNts(r, t.right);
    case _ =>
  }

  // ----- Patterns as trees with gaps -----

  /** The pattern with trees in place of its nonterminals, from left to right. */
  function Plug(p: Pattern, ts: seq<Tree>): Tree
    requires |ts| == |Nts(p)|
  {
    match p
    case Nonterm(_) => ts[0]
    case PLeaf(op) => Leaf(op)
    case PUnary(op, l) => Unary(op, Plug(l, ts))
    case PBinary(op, l, r) => Binary(op, Plug(l, ts[..|Nts(l)|]), Plug(r, ts[|Nts(l)|..]))
  }

  lemma {:induction false} KidsPlug(p: Pattern, t: Tree)
    requires Matches(p, t)
    ensures |Kids(p, t)| == |Nts(p)| && Plug(p, Kids(p, t)) == t
  {
    KidsMatchNts(p, t);
    match p
    case Nonterm(_) =>
    case PLeaf(_) =>
    case PUnary(_, l) => KidsPlug(l, t.left);
    case PBinary(_, l, r) =>
      KidsPlug(l, t.left);
      KidsPlug(r, t.right);
      assert Kids(p, t)[..|Nts(l)|] == Kids(l, t.left) && Kids(p, t)[|Nts(l)|..] == Kids(r, t.right);
  }

  lemma {:induction false} PlugMatches(p: Pattern, ts: seq<Tree>)
    requires |ts| == |Nts(p)|
    ensures Matches(p, Plug(p, ts)) && Kids(p, Plug(p, ts)) == ts
  {
    match p
    case Nonterm(_) =>
    case PLeaf(_) =>
    case PUnary(_, l) => PlugMatches(l, ts);
    case PBinary(_, l, r) =>
      PlugMatches(l, ts[..|Nts(l)|]);
      PlugMatches(r, ts[|Nts(l)|..]);
      assert ts == ts[..|Nts(l)|] + ts[|Nts(l)|..];
  }

  /** A pattern matches exactly the trees that it can be filled up to, and what fills the gaps are the
      operands. */
  lemma MatchesIff(p: Pattern, t: Tree)
    ensures Matches(p, t) <==> exists ts: seq<Tree> :: |ts| == |Nts(p)| && Plug(p, ts) == t
    ensures forall ts: seq<Tree> :: |ts| == |Nts(p)| && Plug(p, ts) == t ==> Matches(p, t) && Kids(p, t) == ts
  {
    if Matches(p, t) {
      KidsPlug(p, t);
    }
    forall ts: seq<Tree> | |ts| == |Nts(p)| && Plug(p, ts) == t ensures Matches(p, t) && Kids(p, t) == ts {
      PlugMatches(p, ts);
    }
  }

  // ----- Covers -----

  /** A cover of a tree: the rule applied at its root, and covers for the pattern's nonterminals. */
  datatype Cover = Cover(r: nat, kids: seq<Cover>)

  /** c derives t from nonterminal nt. */
  ghost predicate Derives(rules: seq<Rule>, c: Cover, t: Tree, nt: nat)
    decreases c
  {
    && c.r < |rules| && rules[c.r].lhs == nt
    && Matches(rules[c.r].pattern, t)
    && |c.kids| == |Nts(rules[c.r].pattern)| == |Kids(rules[c.r].pattern, t)|
    && (forall i :: 0 <= i < |c.kids| ==>
          Derives(rules, c.kids[i], Kids(rules[c.r].pattern, t)[i], Nts(rules[c.r].pattern)[i]))
  }

  /** The sum of the costs of all rules applied. */
  ghost function CostOf(rules: seq<Rule>, c: Cover): nat
    decreases c, 1
  {
    (if c.r < |rules| then rules[c.r].cost else 0) + CostOfAll(rules, c.kids)
  }

  ghost function CostOfAll(rules: seq<Rule>, cs: seq<Cover>): nat
    decreases cs, 0
  {
    if cs == [] then 0 else CostOf(rules, cs[0]) + CostOfAll(rules, cs[1..])
  }

  // ----- What a cover derives -----

  /** Every rule of c derives the nonterminal it is used for, beginning with nt. */
  ghost predicate Sorted(rules: seq<Rule>, c: Cover, nt: nat)
    decreases c
  {
    && c.r < |rules| && rules[c.r].lhs == nt && |c.kids| == |Nts(rules[c.r].pattern)|
    && forall i :: 0 <= i < |c.kids| ==> Sorted(rules, c.kids[i], Nts(rules[c.r].pattern)[i])
  }

  /** The tree that the patterns of c make up. */
  ghost function TreeOf(rules: seq<Rule>, c: Cover): Tree
    decreases c
  {
    if c.r < |rules| && |c.kids| == |Nts(rules[c.r].pattern)| then
      Plug(rules[c.r].pattern, seq(|c.kids|, i requires 0 <= i < |c.kids| => TreeOf(rules, c.kids[i])))
    else Leaf(0)
  }

  /** The rules of c, put together, make up t from nt. */
  ghost predicate Covers(rules: seq<Rule>, c: Cover, t: Tree, nt: nat) {
    Sorted(rules, c, nt) && TreeOf(rules, c) == t
  }

  /** To derive a tree is to make it up. */
  lemma {:induction false} DerivesIff(rules: seq<Rule>, c: Cover, t: Tree, nt: nat)
    ensures Derives(rules, c, t, nt) <==> Covers(rules, c, t, nt)
    decreases c
  {
    if c.r < |rules| && |c.kids| == |Nts(rules[c.r].pattern)| {
      var p := rules[c.r].pattern;
      var ts := seq(|c.kids|, i requires 0 <= i < |c.kids| => TreeOf(rules, c.kids[i]));
      if Derives(rules, c, t, nt) {
        forall i | 0 <= i < |c.kids| ensures Sorted(rules, c.kids[i], Nts(p)[i]) && ts[i] == Kids(p, t)[i] {
          DerivesIff(rules, c.kids[i], Kids(p, t)[i], Nts(p)[i]);
        }
        assert ts == Kids(p, t);
        KidsPlug(p, t);
      }
      if Covers(rules, c, t, nt) {
        PlugMatches(p, ts);
        forall i | 0 <= i < |c.kids| ensures Derives(rules, c.kids[i], Kids(p, t)[i], Nts(p)[i]) {
          DerivesIff(rules, c.kids[i], Kids(p, t)[i], Nts(p)[i]);
        }
      }
    }
  }
}
