/** Strongly connected components by two depth-first searches: the first numbers the blocks in
    reverse finishing order, the second walks predecessors in that order. */
module Scc {
  import opened Graphs
  import opened Icode

  ghost predicate Distinct(s: seq<nat>) {
    forall i, j :: 0 <= i < j < |s| ==> s[i] != s[j]
  }

  lemma {:induction false} DistinctBound(s: seq<nat>, n: nat)
    requires Distinct(s) && forall x :: x in s ==> x < n
    ensures |s| <= n
  {
    if s == [] {
      return;
    }
    assert s[0] in s;
    if n - 1 in s {
      var k :| 0 <= k < |s| && s[k] == n - 1;
      var t := s[..k] + s[k + 1..];
      forall x | x in t ensures x < n - 1 {
        var i :| 0 <= i < |t| && t[i] == x;
        assert s[if i < k then i else i + 1] == x;
        assert x in s;
      }
      DistinctBound(t, n - 1);
    } else {
      DistinctBound(s, n - 1);
    }
  }

  /** Some node of x's component stands in order no later than y. */
  ghost predicate Before(g: Graph, order: seq<nat>, x: nat, y: nat) {
    exists i, j :: 0 <= i <= j < |order| && order[j] == y && g.Mutual(order[i], x)
  }

  /** Some node of x's component is still being visited. */
  ghost predicate Pending(g: Graph, grey: set<nat>, x: nat) {
    exists z :: z in grey && g.Mutual(z, x)
  }

  /** The property of a finishing order that the second search relies on. */
  ghost predicate Ordered(g: Graph, order: seq<nat>, grey: set<nat>) {
    forall x, y {:trigger Before(g, order, x, y)} ::
      x in order && g.Reaches(x, y) ==> Pending(g, grey, x) || Before(g, order, x, y)
  }

  /** What the first search keeps: `done` are the finished nodes, last finished first, and `grey`
      the nodes whose visit is under way. */
  ghost predicate SearchState(g: Graph, black: seq<bool>, done: seq<nat>, grey: set<nat>) {
    && |black| == |g.succ|
    && Distinct(done)
    && (forall u :: u in done ==> g.Node(u) && u !in grey)
    && (forall u :: u in grey ==> g.Node(u))
    && (forall u: nat :: u < |black| ==> (black[u] <==> u in done || u in grey))
    && (forall u, v :: u in done && g.Edge(u, v) ==> v in done || v in grey)
    && Ordered(g, done, grey)
  }

  /** Entering a node keeps the search state. */
  lemma EnterNode(g: Graph, black: seq<bool>, done: seq<nat>, grey: set<nat>, b: nat)
    requires SearchState(g, black, done, grey) && g.Node(b) && !black[b]
    ensures SearchState(g, black[b := true], done, grey + {b})
  {
    forall x, y | x in done && g.Reaches(x, y)
      ensures Pending(g, grey + {b}, x) || Before(g, done, x, y)
    {
      if Pending(g, grey, x) {
        var z :| z in grey && g.Mutual(z, x);
        assert z in grey + {b};
      }
    }
  }

  /** Everything b reaches is finished when b finishes, unless b shares a component with a node
      below it on the stack. */
  lemma FinishReach(g: Graph, black: seq<bool>, done: seq<nat>, grey: set<nat>, b: nat, y: nat)
    requires g.Valid() && SearchState(g, black, done, grey + {b}) && g.Node(b) && b !in grey
    requires forall z: nat :: z in grey ==> g.Reaches(z, b)
    requires forall v: nat :: g.Edge(b, v) ==> black[v]
    requires g.Reaches(b, y)
    ensures Pending(g, grey, b) || y in [b] + done
  {
    var p :| g.PathFromTo(p, b, y);
    var S := set u | u in [b] + done;
    if y !in S {
      var i := FirstExit(g, p, S);
      var z := p[i + 1];
      assert g.Edge(p[i], z) && p[i] in [b] + done;
      assert p[i] == b || p[i] in done;
      assert z in grey;
      PathPart(g, p, 0, i + 1);
      assert g.Mutual(z, b);
    }
  }

  /** The finishing order stays good for one pair when b is put in front. */
  lemma FinishOrdered(g: Graph, black: seq<bool>, done: seq<nat>, grey: set<nat>, b: nat, x: nat, y: nat)
    requires g.Valid() && SearchState(g, black, done, grey + {b}) && g.Node(b) && b !in grey
    requires forall z: nat :: z in grey ==> g.Reaches(z, b)
    requires forall v: nat :: g.Edge(b, v) ==> black[v]
    requires x in [b] + done && g.Reaches(x, y)
    ensures Pending(g, grey, x) || Before(g, [b] + done, x, y)
  {
    var order := [b] + done;
    ReachesSelf(g, b);
    if x != b && Before(g, done, x, y) {
      var i, j :| 0 <= i <= j < |done| && done[j] == y && g.Mutual(done[i], x);
      assert order[i + 1] == done[i] && order[j + 1] == done[j];
    } else {
      assert x == b || Pending(g, grey + {b}, x);
      if !Pending(g, grey, x) {
        assert g.Mutual(b, x);
        ReachesTransitive(g, b, x, y);
        FinishReach(g, black, done, grey, b, y);
        if Pending(g, grey, b) {
          var w :| w in grey && g.Mutual(w, b);
          MutualTransitive(g, w, b, x);
        }
        var j :| 0 <= j < |order| && order[j] == y;
        assert order[0] == b && g.Mutual(order[0], x);
      }
    }
  }

  /** Leaving a node keeps the search state. */
  lemma FinishNode(g: Graph, black: seq<bool>, done: seq<nat>, grey: set<nat>, b: nat)
    requires g.Valid() && SearchState(g, black, done, grey + {b}) && g.Node(b) && b !in grey
    requires forall z: nat :: z in grey ==> g.Reaches(z, b)
    requires forall v: nat :: g.Edge(b, v) ==> black[v]
    ensures SearchState(g, black, [b] + done, grey)
  {
    forall x: nat, y: nat | x in [b] + done && g.Reaches(x, y)
      ensures Pending(g, grey, x) || Before(g, [b] + done, x, y)
    {
      FinishOrdered(g, black, done, grey, b, x, y);
    }
  }

  ghost function White(black: seq<bool>): set<nat> {
    set u: nat | u < |black| && !black[u]
  }

  /** How a visit that starts at b changes the colours and the finished nodes. */
  ghost predicate Extends(g: Graph, b: nat, black0: seq<bool>, done0: seq<nat>, black1: seq<bool>, done1: seq<nat>) {
    && |black0| == |black1|
    && (forall u: nat :: u < |black0| && black0[u] ==> black1[u])
    && |done0| <= |done1| && done1[|done1| - |done0|..] == done0
    && (forall u: nat :: u in done1 && u !in done0 ==> g.Reaches(b, u))
  }

  /** The visit of a successor s of b extends what b's visit has done so far. */
  lemma ExtendsBySuccessor(g: Graph, b: nat, s: nat, black0: seq<bool>, done0: seq<nat>,
      black1: seq<bool>, done1: seq<nat>, black2: seq<bool>, done2: seq<nat>)
    requires g.Valid() && g.Edge(b, s)
    requires Extends(g, b, black0, done0, black1, done1)
    requires Extends(g, s, black1, done1, black2, done2)
    ensures Extends(g, b, black0, done0, black2, done2)
    ensures White(black2) <= White(black1)
  {
    ReachesEdge(g, b, s);
    forall u: nat | u in done2 && u !in done0 ensures g.Reaches(b, u) {
      if u !in done1 {
        ReachesTransitive(g, b, s, u);
      }
    }
    assert done2[|done2| - |done0|..] == done2[|done2| - |done1|..][|done1| - |done0|..];
  }

  /** Nodes on the stack reach a successor of the top one. */
  lemma StackReaches(g: Graph, grey: set<nat>, b: nat, s: nat)
    requires g.Valid() && g.Edge(b, s)
    requires forall z: nat :: z in grey ==> g.Reaches(z, b)
    ensures forall z: nat :: z in grey + {b} ==> g.Reaches(z, s)
  {
    ReachesEdge(g, b, s);
    forall z: nat | z in grey ensures g.Reaches(z, s) {
      ReachesTransitive(g, z, b, s);
    }
  }

  // ----- The second search -----

  /** How a visit from b, numbering component k, changes colours and numbers. The predecessors of
      the nodes in `open` may still be unvisited. */
  ghost predicate Absorbs(g: Graph, b: nat, k: nat, open: set<nat>, black0: seq<bool>, scnOf0: seq<nat>,
      black1: seq<bool>, scnOf1: seq<nat>)
  {
    && |black0| == |scnOf0| == |black1| == |scnOf1| == |g.succ|
    && (forall u: nat :: u < |black0| && black0[u] ==> black1[u])
    && (forall u: nat :: u < |black0| && (black0[u] || !black1[u]) ==> scnOf1[u] == scnOf0[u])
    && (forall u: nat :: u < |black0| && !black0[u] && black1[u] ==> scnOf1[u] == k && g.Reaches(u, b))
    && (forall u: nat, p: nat ::
          g.Edge(p, u) && u < |black0| && p < |black0| && !black0[u] && black1[u] && u !in open ==> black1[p])
  }

  /** The variables collected for the nodes that turned black. */
  ghost predicate Collects(vars: seq<set<Local>>, black0: seq<bool>, before: set<Local>, black1: seq<bool>,
      after: set<Local>)
    requires |vars| == |black0| == |black1|
  {
    forall v :: v in after <==> v in before || exists u: nat :: u < |vars| && !black0[u] && black1[u] && v in vars[u]
  }

  lemma AbsorbsByPredecessor(g: Graph, b: nat, s: nat, k: nat, black0: seq<bool>, scnOf0: seq<nat>,
      black1: seq<bool>, scnOf1: seq<nat>, black2: seq<bool>, scnOf2: seq<nat>)
    requires g.Valid() && g.Edge(s, b)
    requires Absorbs(g, b, k, {b}, black0, scnOf0, black1, scnOf1)
    requires Absorbs(g, s, k, {}, black1, scnOf1, black2, scnOf2)
    ensures Absorbs(g, b, k, {b}, black0, scnOf0, black2, scnOf2)
    ensures White(black2) <= White(black1)
  {
    ReachesEdge(g, s, b);
    forall u: nat | u < |black0| && !black0[u] && black2[u] ensures g.Reaches(u, b) {
      if !black1[u] {
        ReachesTransitive(g, u, s, b);
      }
    }
  }

  lemma CollectsFirst(vars: seq<set<Local>>, black0: seq<bool>, v0: set<Local>, b: nat)
    requires |vars| == |black0| && b < |black0| && !black0[b]
    ensures Collects(vars, black0, v0, black0[b := true], v0 + vars[b])
  {
    var black1 := black0[b := true];
    forall v ensures v in v0 + vars[b] <==> v in v0 || exists u: nat ::
      u < |vars| && !black0[u] && black1[u] && v in vars[u] {
      if v in vars[b] {
        assert b < |vars| && !black0[b] && black1[b] && v in vars[b];
      }
    }
  }

  lemma CollectsMore(vars: seq<set<Local>>, black0: seq<bool>, v0: set<Local>, black1: seq<bool>, v1: set<Local>,
      black2: seq<bool>, v2: set<Local>)
    requires |vars| == |black0| == |black1| == |black2|
    requires forall u: nat :: u < |vars| ==> (black0[u] ==> black1[u]) && (black1[u] ==> black2[u])
    requires Collects(vars, black0, v0, black1, v1) && Collects(vars, black1, v1, black2, v2)
    ensures Collects(vars, black0, v0, black2, v2)
  {
    forall v ensures v in v2 <==> v in v0 || exists u: nat :: u < |vars| && !black0[u] && black2[u] && v in vars[u] {
      if u: nat :| u < |vars| && !black0[u] && black2[u] && v in vars[u] {
        if black1[u] {
          assert v in v1;
        }
      }
    }
  }

  /** Numbers increase along edges, and predecessors of numbered nodes are numbered. */
  ghost predicate Monotone(g: Graph, scnOf: seq<nat>)
  {
    && |scnOf| == |g.succ|
    && (forall u: nat, v: nat ::
          g.Edge(u, v) && u < |scnOf| && v < |scnOf| && scnOf[v] > 0 ==> 0 < scnOf[u] <= scnOf[v])
  }

  /** Two nodes have the same number exactly when each reaches the other. */
  ghost predicate SameIffMutual(g: Graph, nodes: seq<nat>, scnOf: seq<nat>)
  {
    forall x: nat, y: nat {:trigger g.Mutual(x, y)} ::
      x in nodes && y in nodes && x < |scnOf| && y < |scnOf| && scnOf[x] > 0 && scnOf[y] > 0 ==>
      (scnOf[x] == scnOf[y] <==> g.Mutual(x, y))
  }

  /** A finishing order of all nodes that its members reach. */
  ghost predicate FinishingOrder(g: Graph, order: seq<nat>) {
    && Distinct(order)
    && (forall u: nat :: u in order ==> g.Node(u))
    && (forall u: nat, v: nat :: u in order && g.Edge(u, v) ==> v in order)
    && Ordered(g, order, {})
  }

  /** The state between two components, after the first i nodes of the order. */
  ghost predicate RoundState(g: Graph, order: seq<nat>, i: nat, black: seq<bool>, scnOf: seq<nat>, scn: nat)
    requires i <= |order|
  {
    && |black| == |scnOf| == |g.succ|
    && (forall u: nat :: u < |black| ==> (black[u] <==> 0 < scnOf[u]) && scnOf[u] <= scn)
    && (forall j: nat :: j < i ==> order[j] < |black| && black[order[j]])
    && Monotone(g, scnOf)
    && SameIffMutual(g, order, scnOf)
  }

  /** Whatever reaches a numbered node is numbered, no higher. */
  lemma {:induction false} MonotoneOnPaths(g: Graph, scnOf: seq<nat>, p: seq<nat>)
    requires g.Valid() && Monotone(g, scnOf) && g.Path(p) && 0 < scnOf[p[|p| - 1]]
    ensures 0 < scnOf[p[0]] <= scnOf[p[|p| - 1]]
  {
    if |p| > 1 {
      var q := p[1..];
      assert g.Edge(p[0], p[1]);
      assert forall j :: 0 <= j < |q| - 1 ==> g.Edge(q[j], q[j + 1]);
      MonotoneOnPaths(g, scnOf, q);
    }
  }

  lemma MonotoneReaches(g: Graph, scnOf: seq<nat>, x: nat, y: nat)
    requires g.Valid() && Monotone(g, scnOf) && g.Reaches(x, y) && y < |scnOf| && 0 < scnOf[y]
    ensures x < |scnOf| && 0 < scnOf[x] <= scnOf[y]
  {
    var p :| g.PathFromTo(p, x, y);
    MonotoneOnPaths(g, scnOf, p);
  }

  /** A node of the order that the visit from order[i] absorbs lies in order[i]'s component. */
  lemma AbsorbedIsMutual(g: Graph, order: seq<nat>, i: nat, scnOf: seq<nat>, x: nat)
    requires g.Valid() && Monotone(g, scnOf) && Distinct(order) && Ordered(g, order, {}) && i < |order|
    requires forall j: nat :: j < i ==> order[j] < |scnOf| && 0 < scnOf[order[j]]
    requires x in order && x < |scnOf| && scnOf[x] == 0 && g.Reaches(x, order[i])
    ensures g.Mutual(x, order[i])
  {
    assert Before(g, order, x, order[i]);
    var a, b :| 0 <= a <= b < |order| && order[b] == order[i] && g.Mutual(order[a], x);
    assert b == i;
    if a < i {
      MonotoneReaches(g, scnOf, x, order[a]);
    }
  }

  /** Old and new members of components compare as they should. */
  lemma RoundPair(g: Graph, black0: seq<bool>, scnOf0: seq<nat>, scn: nat, scnOf1: seq<nat>, r: nat, x: nat, y: nat)
    requires g.Valid() && Monotone(g, scnOf0) && x < |scnOf0| == |scnOf1| == |black0| && y < |scnOf0|
    requires forall u: nat :: u < |black0| ==> (black0[u] <==> 0 < scnOf0[u]) && scnOf0[u] <= scn
    requires !black0[x] ==> g.Mutual(x, r)
    requires !black0[y] ==> g.Mutual(y, r)
    requires scnOf1[x] == if black0[x] then scnOf0[x] else scn + 1
    requires scnOf1[y] == if black0[y] then scnOf0[y] else scn + 1
    requires black0[x] && black0[y] ==> (scnOf0[x] == scnOf0[y] <==> g.Mutual(x, y))
    ensures scnOf1[x] == scnOf1[y] <==> g.Mutual(x, y)
  {
    if !black0[x] && !black0[y] {
      MutualTransitive(g, x, r, y);
    } else if !black0[x] && g.Mutual(x, y) {
      MonotoneReaches(g, scnOf0, x, y);
    } else if !black0[y] && g.Mutual(x, y) {
      MonotoneReaches(g, scnOf0, y, x);
    }
  }

  /** A visit from the first white node of the order completes one component. */
  lemma RoundSameIffMutual(g: Graph, order: seq<nat>, i: nat, black0: seq<bool>, scnOf0: seq<nat>, scn: nat,
      black1: seq<bool>, scnOf1: seq<nat>, x: nat, y: nat)
    requires g.Valid() && FinishingOrder(g, order) && i < |order| && |black0| == |g.succ|
    requires RoundState(g, order, i, black0, scnOf0, scn) && order[i] < |black0| && !black0[order[i]]
    requires Absorbs(g, order[i], scn + 1, {}, black0, scnOf0, black1, scnOf1)
    requires x in order && y in order && x < |scnOf1| && y < |scnOf1| && scnOf1[x] > 0 && scnOf1[y] > 0
    ensures scnOf1[x] == scnOf1[y] <==> g.Mutual(x, y)
  {
    if !black0[x] {
      AbsorbedIsMutual(g, order, i, scnOf0, x);
    }
    if !black0[y] {
      AbsorbedIsMutual(g, order, i, scnOf0, y);
    }
    RoundPair(g, black0, scnOf0, scn, scnOf1, order[i], x, y);
  }

  lemma RoundDone(g: Graph, order: seq<nat>, i: nat, black0: seq<bool>, scnOf0: seq<nat>, scn: nat,
      black1: seq<bool>, scnOf1: seq<nat>)
    requires g.Valid() && FinishingOrder(g, order) && i < |order| && |black0| == |g.succ|
    requires RoundState(g, order, i, black0, scnOf0, scn) && order[i] < |black0| && !black0[order[i]]
    requires Absorbs(g, order[i], scn + 1, {}, black0, scnOf0, black1, scnOf1) && black1[order[i]]
    ensures RoundState(g, order, i + 1, black1, scnOf1, scn + 1)
  {
    forall x: nat, y: nat | x in order && y in order && x < |scnOf1| && y < |scnOf1| && scnOf1[x] > 0 && scnOf1[y] > 0
      ensures scnOf1[x] == scnOf1[y] <==> g.Mutual(x, y)
    {
      RoundSameIffMutual(g, order, i, black0, scnOf0, scn, black1, scnOf1, x, y);
    }
  }

  /** Component k has collected exactly the variables of its blocks. */
  ghost predicate Contents(vars: seq<set<Local>>, scnOf: seq<nat>, sccVars: seq<set<Local>>, scn: nat)
  {
    && |vars| == |scnOf| && scn < |sccVars|
    && (forall k: nat, v :: 1 <= k <= scn ==> (v in sccVars[k] <==> InComponent(vars, scnOf, k, v)))
  }

  /** v occurs in a block numbered k. */
  ghost predicate InComponent(vars: seq<set<Local>>, scnOf: seq<nat>, k: nat, v: Local)
    requires |vars| == |scnOf|
  {
    exists u: nat :: u < |vars| && scnOf[u] == k && v in vars[u]
  }

  /** One more component has been collected. */
  lemma ContentsGrow(g: Graph, b: nat, vars: seq<set<Local>>, black0: seq<bool>, scnOf0: seq<nat>,
      sccVars0: seq<set<Local>>, scn: nat,
      black1: seq<bool>, scnOf1: seq<nat>, sccVars1: seq<set<Local>>)
    requires Contents(vars, scnOf0, sccVars0, scn) && |vars| == |black0| == |black1|
      && scn + 1 < |sccVars0| == |sccVars1|
    requires forall u: nat :: u < |black0| ==> (black0[u] <==> 0 < scnOf0[u]) && scnOf0[u] <= scn
    requires Absorbs(g, b, scn + 1, {}, black0, scnOf0, black1, scnOf1)
    requires sccVars1 == sccVars0[scn + 1 := sccVars1[scn + 1]]
    requires Collects(vars, black0, {}, black1, sccVars1[scn + 1])
    ensures Contents(vars, scnOf1, sccVars1, scn + 1)
  {
    forall k: nat, v | 1 <= k <= scn + 1 ensures v in sccVars1[k] <==> InComponent(vars, scnOf1, k, v) {
      if k <= scn {
        assert v in sccVars0[k] <==> InComponent(vars, scnOf0, k, v);
        assert forall u: nat :: u < |vars| ==> (scnOf0[u] == k <==> scnOf1[u] == k);
      } else {
        assert forall u: nat :: u < |vars| ==> (scnOf1[u] == k <==> !black0[u] && black1[u]);
      }
    }
  }

  class SccFinder {
    const g: Graph
    const vars: seq<set<Local>>     // the variables used or defined in each block

    var black: seq<bool>          // colour of each block
    var nodes: seq<nat>           // blocks in reverse finishing order, from index dfn on
    var dfn: nat
    var scn: nat                  // components found so far
    var scnOf: seq<nat>           // component of each block, 0 for none
    var sccVars: seq<set<Local>>    // variables of each component, from index 1 on

    ghost predicate Shape()
      reads this
    {
      && g.Valid()
      && |vars| == |g.succ| == |black| == |scnOf|
      && |nodes| == |g.succ| + 1
      && dfn <= |nodes|
    }

    ghost function Done(): seq<nat>
      requires dfn <= |nodes|
      reads this
    {
      nodes[dfn..]
    }

    method Visit(b: nat, ghost grey: set<nat>)
      requires Shape() && g.Node(b) && !black[b]
      requires SearchState(g, black, Done(), grey)
      requires forall z: nat :: z in grey ==> g.Reaches(z, b)
      modifies this`black, this`nodes, this`dfn
      ensures Shape() && SearchState(g, black, Done(), grey)
      ensures b in Done()
      ensures Extends(g, b, old(black), old(Done()), black, Done())
      decreases White(black), 0
    {
      EnterNode(g, black, Done(), grey, b);
      ghost var white := White(black);
      black := black[b := true];
      assert b in white && b !in White(black);
      assert Extends(g, b, old(black), old(Done()), black, Done());
      for i := 0 to |g.succ[b]|
        invariant Shape() && SearchState(g, black, Done(), grey + {b})
        invariant Extends(g, b, old(black), old(Done()), black, Done())
        invariant forall s: nat :: s in g.succ[b][..i] ==> g.Node(s) && black[s]
        invariant White(black) < white
      {
        var s := g.succ[b][i];
        assert g.Edge(b, s);
        assert g.succ[b][..i + 1] == g.succ[b][..i] + [s];
        if !black[s] {
          Descend(b, s, grey, old(black), old(Done()));
        }
      }
      assert g.succ[b][..|g.succ[b]|] == g.succ[b];
      Leave(b, grey, old(black), old(Done()));
    }

    /** On the way through the successors of `b`: one that has not been visited. */
    method Descend(b: nat, s: nat, ghost grey: set<nat>, ghost black0: seq<bool>, ghost done0: seq<nat>)
      requires Shape() && g.Edge(b, s) && g.Node(b) && g.Node(s) && !black[s]
      requires SearchState(g, black, Done(), grey + {b})
      requires forall z: nat :: z in grey ==> g.Reaches(z, b)
      requires Extends(g, b, black0, done0, black, Done())
      modifies this`black, this`nodes, this`dfn
      ensures Shape() && SearchState(g, black, Done(), grey + {b})
      ensures Extends(g, b, black0, done0, black, Done()) && black[s]
      ensures White(black) <= White(old(black))
      ensures forall x: nat :: x < |black| && old(black)[x] ==> black[x]
      decreases White(black), 1
    {
      StackReaches(g, grey, b, s);
      ghost var black1, done1 := black, Done();
      Visit(s, grey + {b});
      ExtendsBySuccessor(g, b, s, black0, done0, black1, done1, black, Done());
    }

    /** The last step of a visit: `b` is finished and goes in front of the order. */
    method Leave(b: nat, ghost grey: set<nat>, ghost black0: seq<bool>, ghost done0: seq<nat>)
      requires Shape() && SearchState(g, black, Done(), grey + {b}) && g.Node(b) && b !in grey
      requires forall z: nat :: z in grey ==> g.Reaches(z, b)
      requires forall v: nat :: g.Edge(b, v) ==> black[v]
      requires Extends(g, b, black0, done0, black, Done())
      modifies this`nodes, this`dfn
      ensures Shape() && SearchState(g, black, Done(), grey)
      ensures b in Done()
      ensures Extends(g, b, black0, done0, black, Done())
    {
      FinishNode(g, black, Done(), grey, b);
      DistinctBound([b] + Done(), |g.succ|);
      ReachesSelf(g, b);
      ghost var done := Done();
      dfn := dfn - 1;
      nodes := nodes[dfn := b];
      assert Done() == [b] + done;
      assert Done()[|Done()| - |done0|..] == done[|done| - |done0|..];
    }

    /** The first search, from the root, block 0. */
    method NumberBlocks()
      requires Shape() && 0 < |g.succ|
      modifies this`black, this`nodes, this`dfn
      ensures Shape() && 0 < dfn && FinishingOrder(g, Done())
      ensures forall u: nat :: u in Done() <==> g.Reaches(0, u)
    {
      black := seq(|g.succ|, _ => false);
      nodes := seq(|g.succ| + 1, _ => 0);
      dfn := |g.succ| + 1;
      assert SearchState(g, black, Done(), {});
      Visit(0, {});
      forall u: nat | g.Reaches(0, u) ensures u in Done() {
        StaysInClosed(g, set x | x in Done(), 0, u);
      }
      DistinctBound(Done(), |g.succ|);
    }

    /** The second search: number b and every unnumbered block found through predecessors. */
    method Absorb(b: nat)
      requires Shape() && g.Node(b) && !black[b] && scn < |sccVars|
      modifies this`black, this`scnOf, this`sccVars
      ensures Shape() && black[b]
      ensures Absorbs(g, b, scn, {}, old(black), old(scnOf), black, scnOf)
      ensures |sccVars| == |old(sccVars)| && sccVars == old(sccVars)[scn := sccVars[scn]]
      ensures Collects(vars, old(black), old(sccVars)[scn], black, sccVars[scn])
      decreases White(black)
    {
      ghost var white, vars0 := White(black), sccVars[scn];
      black := black[b := true];
      scnOf := scnOf[b := scn];
      sccVars := sccVars[scn := sccVars[scn] + vars[b]];
      assert b in white && b !in White(black);
      ReachesSelf(g, b);
      CollectsFirst(vars, old(black), vars0, b);
      for i := 0 to |g.pred[b]|
        invariant Shape() && black[b]
        invariant Absorbs(g, b, scn, {b}, old(black), old(scnOf), black, scnOf)
        invariant |sccVars| == |old(sccVars)| && sccVars == old(sccVars)[scn := sccVars[scn]]
        invariant Collects(vars, old(black), vars0, black, sccVars[scn])
        invariant forall p: nat :: p in g.pred[b][..i] ==> g.Node(p) && black[p]
        invariant White(black) < white
      {
        var p := g.pred[b][i];
        assert p in g.pred[b];
        EdgeBothWays(g, p, b);
        assert g.pred[b][..i + 1] == g.pred[b][..i] + [p];
        if !black[p] {
          ghost var black1, scnOf1, vars1 := black, scnOf, sccVars[scn];
          Absorb(p);
          AbsorbsByPredecessor(g, b, p, scn, old(black), old(scnOf), black1, scnOf1, black, scnOf);
          CollectsMore(vars, old(black), vars0, black1, vars1, black, sccVars[scn]);
        }
      }
      assert g.pred[b][..|g.pred[b]|] == g.pred[b];
      forall p: nat | g.Edge(p, b) ensures black[p] {
        EdgeBothWays(g, p, b);
      }
    }

    /** Number the components in the order found by the first search. */
    method MarkComponents()
      requires Shape() && 0 < dfn && FinishingOrder(g, Done())
      requires forall u: nat :: u < |scnOf| ==> scnOf[u] == 0
      modifies this`black, this`scn, this`scnOf, this`sccVars
      ensures Shape() && Monotone(g, scnOf) && SameIffMutual(g, Done(), scnOf)
      ensures forall u: nat :: u in Done() ==> 0 < scnOf[u]
      ensures forall u: nat :: u < |scnOf| ==> scnOf[u] <= scn
      ensures Contents(vars, scnOf, sccVars, scn)
    {
      black := seq(|g.succ|, _ => false);
      scn := 0;
      sccVars := seq(|g.succ| + 1, _ => {});
      for i := dfn to |nodes|
        invariant Shape() && scn <= i - dfn && |sccVars| == |g.succ| + 1
        invariant RoundState(g, Done(), i - dfn, black, scnOf, scn)
        invariant Contents(vars, scnOf, sccVars, scn)
      {
        var r := nodes[i];
        assert r == Done()[i - dfn];
        assert r in Done();
        if !black[r] {
          OpenComponent(r, i - dfn);
        }
      }
    }

    /** One step of MarkComponents: start a component at the i-th block of the order. */
    method OpenComponent(r: nat, ghost i: nat)
      requires Shape() && 0 < dfn && FinishingOrder(g, Done()) && i < |Done()| && r == Done()[i]
      requires g.Node(r) && !black[r] && RoundState(g, Done(), i, black, scnOf, scn)
      requires scn <= i && |sccVars| == |g.succ| + 1 && Contents(vars, scnOf, sccVars, scn)
      modifies this`black, this`scn, this`scnOf, this`sccVars
      ensures Shape() && RoundState(g, Done(), i + 1, black, scnOf, scn)
      ensures scn <= i + 1 && |sccVars| == |g.succ| + 1 && Contents(vars, scnOf, sccVars, scn)
    {
      ghost var black0, scnOf0 := black, scnOf;
      scn := scn + 1;
      sccVars := sccVars[scn := {}];
      ghost var sccVars0 := sccVars;
      Absorb(r);
      RoundDone(g, Done(), i, black0, scnOf0, scn - 1, black, scnOf);
      ContentsGrow(g, r, vars, black0, scnOf0, sccVars0, scn - 1, black, scnOf, sccVars);
    }

    constructor (g: Graph, vars: seq<set<Local>>)
      requires g.Valid() && |vars| == |g.succ|
      ensures this.g == g && this.vars == vars && Shape()
      ensures forall u: nat :: u < |scnOf| ==> scnOf[u] == 0
    {
      this.g, this.vars := g, vars;
      black := seq(|g.succ|, _ => false);
      nodes := seq(|g.succ| + 1, _ => 0);
      dfn, scn := 0, 0;
      scnOf := seq(|g.succ|, _ => 0);
      sccVars := [];
    }
  }
}
