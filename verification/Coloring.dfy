/** Graph colouring: dismantle the interference graph, then colour it while putting it back. */
module Coloring {
  import opened Registers

  // ----- Interference graphs -----

  /** Adjacency rows: symmetric, and a node that occurs at all has its own bit set. */
  ghost predicate IsGraph(rows: seq<set<nat>>) {
    && (forall i: nat, j: nat {:trigger Adjacent(rows, i, j)} :: Adjacent(rows, i, j) ==> Adjacent(rows, j, i))
    && (forall i: nat :: i < |rows| && rows[i] != {} ==> i in rows[i])
  }

  predicate Adjacent(rows: seq<set<nat>>, i: nat, j: nat) {
    i < |rows| && j in rows[i]
  }

  /** Add a clique: the row of every member gets all members. */
  method AddClique(rows0: seq<set<nat>>, v: set<nat>) returns (rows: seq<set<nat>>)
    requires IsGraph(rows0) && forall i :: i in v ==> i < |rows0|
    ensures IsGraph(rows) && |rows| == |rows0|
    ensures forall i: nat :: i < |rows| ==> rows[i] == if i in v then rows0[i] + v else rows0[i]
  {
    rows := rows0;
    for i := 0 to |rows0|
      invariant |rows| == |rows0|
      invariant forall j: nat :: j < |rows| ==> rows[j] == if j in v && j < i then rows0[j] + v else rows0[j]
    {
      if i in v {
        rows := rows[i := rows[i] + v];
      }
    }
    CliqueKeepsGraph(rows0, v, rows);
  }

  lemma CliqueKeepsGraph(rows0: seq<set<nat>>, v: set<nat>, rows: seq<set<nat>>)
    requires IsGraph(rows0) && |rows| == |rows0| && forall i :: i in v ==> i < |rows0|
    requires forall i: nat :: i < |rows| ==> rows[i] == if i in v then rows0[i] + v else rows0[i]
    ensures IsGraph(rows)
  {
    forall i: nat, j: nat | Adjacent(rows, i, j) ensures Adjacent(rows, j, i) {
      assert Adjacent(rows0, i, j) ==> Adjacent(rows0, j, i);
    }
  }

  ghost function Unremoved(removed: seq<bool>): set<nat> {
    set i: nat | i < |removed| && !removed[i]
  }

  ghost function Elems(s: seq<nat>): set<nat> {
    set i | i in s
  }

  /** What is left of the graph when some nodes have been taken out. */
  ghost predicate Remaining(orig: seq<set<nat>>, rows: seq<set<nat>>, removed: seq<bool>) {
    && |orig| == |rows| == |removed|
    && (forall i: nat {:trigger RowLeft(orig, rows, removed, i)} :: i < |rows| ==> RowLeft(orig, rows, removed, i))
  }

  ghost predicate RowLeft(orig: seq<set<nat>>, rows: seq<set<nat>>, removed: seq<bool>, i: nat)
    requires i < |orig| == |rows| == |removed|
  {
    rows[i] == if removed[i] then {} else orig[i] * Unremoved(removed)
  }

  /** When node i goes, it goes from its own row and from its neighbours' rows. */
  lemma RemoveKeeps(orig: seq<set<nat>>, rows: seq<set<nat>>, removed: seq<bool>, i: nat, rows': seq<set<nat>>)
    requires IsGraph(orig) && Remaining(orig, rows, removed) && i < |rows| == |rows'|
    requires forall j: nat :: j < |rows| ==>
      rows'[j] == if j == i then {} else if j in rows[i] then rows[j] - {i} else rows[j]
    ensures Remaining(orig, rows', removed[i := true])
  {
    var removed' := removed[i := true];
    assert Unremoved(removed') == Unremoved(removed) - {i};
    assert RowLeft(orig, rows, removed, i);
    forall j: nat | j < |rows| ensures RowLeft(orig, rows', removed', j) {
      assert RowLeft(orig, rows, removed, j);
      if j != i && !removed[j] && !removed[i] {
        assert Adjacent(orig, i, j) <==> Adjacent(orig, j, i);
      }
    }
  }

  /** The state of the colouring: the graph left, the nodes taken out for colouring, in order, and
      the storage of the nodes' locals. */
  datatype State = State(rows: seq<set<nat>>, removed: seq<bool>, stk: seq<nat>, place: seq<Storage>, slot: nat)

  /** What is to be coloured: the interference graph, the parameters, storage on entry, the number
      of registers and the first free stack slot. */
  datatype Task = Task(orig: seq<set<nat>>, param: seq<bool>, init: seq<Storage>, colors: nat, slot0: nat) {

    ghost predicate Valid() {
      && |orig| == |param| == |init|
      && IsGraph(orig)
      && (forall i: nat :: i < |init| && !param[i] ==> init[i].Undecided? || init[i].InMemory?)
    }

    /** The nodes on the stack, when they were put there, had fewer neighbours left than there are
        registers. */
    ghost predicate Colorable(s: State)
      requires |orig| == |s.removed|
    {
      forall p: nat {:trigger FewLeft(s, p)} :: p < |s.stk| ==> FewLeft(s, p)
    }

    ghost predicate FewLeft(s: State, p: nat)
      requires p < |s.stk| && |orig| == |s.removed|
    {
      s.stk[p] < |orig| && |orig[s.stk[p]] * (Elems(s.stk[p..]) + Unremoved(s.removed))| <= colors
    }

    ghost predicate Stacked(s: State)
      requires |orig| == |s.removed| == |s.place| == |param| == |init|
    {
      && (forall p: nat, q: nat {:trigger s.stk[p], s.stk[q]} :: p < q < |s.stk| ==> s.stk[p] != s.stk[q])
      && (forall i :: i in s.stk ==> i < |orig| && s.removed[i] && !param[i] && s.place[i].Undecided? && orig[i] != {})
    }

    /** Where a node's local is while the graph is being dismantled. */
    ghost predicate Held(s: State, i: nat)
      requires |orig| == |s.removed| == |s.place| == |param| == |init| && i < |orig|
    {
      if param[i] || !s.removed[i] || i in s.stk then s.place[i] == init[i]
      else if s.place[i].Stack? then slot0 <= s.place[i].slot < s.slot && (init[i].InMemory? || |orig[i]| > colors)
      else s.place[i] == init[i] && orig[i] == {} && init[i].Undecided?
    }

    ghost predicate SlotsDiffer(s: State, i: nat, j: nat)
      requires |orig| == |s.place| == |param| && i < |orig| && j < |orig|
    {
      !param[i] && !param[j] && s.place[i].Stack? && s.place[j].Stack? ==> s.place[i].slot != s.place[j].slot
    }

    ghost predicate Inv(s: State) {
      && Valid()
      && |orig| == |s.rows| == |s.removed| == |s.place|
      && Remaining(orig, s.rows, s.removed)
      && Stacked(s)
      && Colorable(s)
      && slot0 <= s.slot
      && (forall i: nat {:trigger Held(s, i)} :: i < |orig| ==> Held(s, i))
      && (forall i: nat, j: nat {:trigger SlotsDiffer(s, i, j)} ::
            i < |orig| && j < |orig| && i != j ==> SlotsDiffer(s, i, j))
    }
  }

  /** The graph without node i. */
  function WithoutNode(rows: seq<set<nat>>, i: nat): seq<set<nat>>
    requires i < |rows|
  {
    seq(|rows|, j requires 0 <= j < |rows| => if j == i then {} else if j in rows[i] then rows[j] - {i} else rows[j])
  }

  /** A node has no more neighbours left than it had. */
  lemma FewerLeft(k: Task, s: State, i: nat)
    requires k.Inv(s) && i < |s.rows|
    ensures |s.rows[i]| <= |k.orig[i]|
  {
    assert RowLeft(k.orig, s.rows, s.removed, i);
    SubsetCardinality(s.rows[i], k.orig[i]);
  }

  /** Colorability survives the removal of a node that stays off the stack. */
  lemma RemoveKeepsColorable(k: Task, s: State, s': State, i: nat)
    requires k.Inv(s) && i < |s.removed| && s'.stk == s.stk && s'.removed == s.removed[i := true]
    ensures k.Colorable(s')
  {
    forall p: nat | p < |s.stk| ensures k.FewLeft(s', p) {
      assert k.FewLeft(s, p);
      SubsetCardinality(k.orig[s.stk[p]] * (Elems(s.stk[p..]) + Unremoved(s'.removed)),
        k.orig[s.stk[p]] * (Elems(s.stk[p..]) + Unremoved(s.removed)));
    }
  }

  lemma {:induction false} SubsetCardinality(a: set<nat>, b: set<nat>)
    requires a <= b
    ensures |a| <= |b|
  {
    if a != {} {
      var x :| x in a;
      SubsetCardinality(a - {x}, b - {x});
    }
  }

  /** A parameter's node goes. */
  lemma DropParam(k: Task, s: State, i: nat)
    requires k.Inv(s) && i < |s.rows| && k.param[i]
    ensures k.Inv(s.(rows := WithoutNode(s.rows, i), removed := s.removed[i := true]))
  {
    var s' := s.(rows := WithoutNode(s.rows, i), removed := s.removed[i := true]);
    RemoveKeeps(k.orig, s.rows, s.removed, i, s'.rows);
    RemoveKeepsColorable(k, s, s', i);
    forall j: nat | j < |k.orig| ensures k.Held(s', j) {
      assert k.Held(s, j);
    }
    forall a: nat, b: nat | a < |k.orig| && b < |k.orig| && a != b ensures k.SlotsDiffer(s', a, b) {
      assert k.SlotsDiffer(s, a, b);
    }
  }

  /** A node is spilled: its local gets a fresh stack slot. It must be in memory, or have too many
      neighbours. */
  lemma SpillNode(k: Task, s: State, i: nat)
    requires k.Inv(s) && i < |s.rows| && !k.param[i] && !s.removed[i]
    requires s.place[i].InMemory? || |k.orig[i]| > k.colors
    ensures k.Inv(s.(rows := WithoutNode(s.rows, i), removed := s.removed[i := true],
      place := s.place[i := Stack(s.slot)], slot := s.slot + 1))
  {
    var s' := s.(rows := WithoutNode(s.rows, i), removed := s.removed[i := true], place := s.place[i := Stack(s.slot)],
      slot := s.slot + 1);
    RemoveKeeps(k.orig, s.rows, s.removed, i, s'.rows);
    RemoveKeepsColorable(k, s, s', i);
    forall j: nat | j < |k.orig| ensures k.Held(s', j) {
      assert k.Held(s, j);
    }
    forall a: nat, b: nat | a < |k.orig| && b < |k.orig| && a != b ensures k.SlotsDiffer(s', a, b) {
      assert k.SlotsDiffer(s, a, b) && k.Held(s, a) && k.Held(s, b);
    }
  }

  /** A node that does not occur is forgotten. */
  lemma ForgetNode(k: Task, s: State, i: nat)
    requires k.Inv(s) && i < |s.rows| && !k.param[i] && !s.removed[i] && s.rows[i] == {} && s.place[i].Undecided?
    ensures k.Inv(s.(removed := s.removed[i := true]))
  {
    var s' := s.(removed := s.removed[i := true]);
    assert RowLeft(k.orig, s.rows, s.removed, i);
    assert i in Unremoved(s.removed) && i !in k.orig[i] * Unremoved(s.removed);
    assert k.orig[i] == {};
    forall j: nat | j < |k.orig| ensures RowLeft(k.orig, s.rows, s'.removed, j) {
      assert RowLeft(k.orig, s.rows, s.removed, j);
      assert Unremoved(s'.removed) == Unremoved(s.removed) - {i};
      assert !Adjacent(k.orig, i, j) && !Adjacent(k.orig, j, i);
    }
    RemoveKeepsColorable(k, s, s', i);
    forall j: nat | j < |k.orig| ensures k.Held(s', j) {
      assert k.Held(s, j);
    }
    forall a: nat, b: nat | a < |k.orig| && b < |k.orig| && a != b ensures k.SlotsDiffer(s', a, b) {
      assert k.SlotsDiffer(s, a, b);
    }
  }

  lemma ElemsPush(stk: seq<nat>, p: nat, i: nat)
    requires p <= |stk|
    ensures Elems((stk + [i])[p..]) == Elems(stk[p..]) + {i}
  {
    assert (stk + [i])[p..] == stk[p..] + [i];
    forall x ensures x in Elems(stk[p..] + [i]) <==> x in Elems(stk[p..]) + {i} {
      assert x in stk[p..] + [i] <==> x in stk[p..] || x == i;
    }
  }

  /** Moving node i from the graph to the stack leaves the set of later nodes as it was. */
  lemma LaterNodes(stk: seq<nat>, removed: seq<bool>, p: nat, i: nat)
    requires p <= |stk| && i < |removed| && !removed[i]
    ensures Elems((stk + [i])[p..]) + Unremoved(removed[i := true]) == Elems(stk[p..]) + Unremoved(removed)
  {
    ElemsPush(stk, p, i);
    assert Unremoved(removed[i := true]) == Unremoved(removed) - {i};
    assert i in Unremoved(removed);
  }

  lemma PushKeepsColorable(k: Task, s: State, s': State, i: nat)
    requires |k.orig| == |s.removed| && k.Colorable(s) && i < |k.orig| && !s.removed[i]
    requires |k.orig[i] * Unremoved(s.removed)| <= k.colors
    requires s'.stk == s.stk + [i] && s'.removed == s.removed[i := true]
    ensures k.Colorable(s')
  {
    forall p: nat | p < |s'.stk| ensures k.FewLeft(s', p) {
      LaterNodes(s.stk, s.removed, p, i);
      if p < |s.stk| {
        assert k.FewLeft(s, p);
      } else {
        assert Elems(s.stk[p..]) + Unremoved(s.removed) == Unremoved(s.removed);
      }
    }
  }

  /** A node with few neighbours left goes on the stack. */
  lemma PushNode(k: Task, s: State, i: nat)
    requires k.Inv(s) && i < |s.rows| && !k.param[i] && !s.removed[i] && s.place[i].Undecided?
    requires s.rows[i] != {} && |s.rows[i]| <= k.colors
    ensures k.Inv(s.(rows := WithoutNode(s.rows, i), removed := s.removed[i := true], stk := s.stk + [i]))
  {
    var s' := s.(rows := WithoutNode(s.rows, i), removed := s.removed[i := true], stk := s.stk + [i]);
    assert RowLeft(k.orig, s.rows, s.removed, i);
    RemoveKeeps(k.orig, s.rows, s.removed, i, s'.rows);
    PushKeepsColorable(k, s, s', i);
    assert forall x :: x in s'.stk <==> x in s.stk || x == i;
    forall j: nat | j < |k.orig| ensures k.Held(s', j) {
      assert k.Held(s, j);
    }
    forall a: nat, b: nat | a < |k.orig| && b < |k.orig| && a != b ensures k.SlotsDiffer(s', a, b) {
      assert k.SlotsDiffer(s, a, b);
    }
  }

  // ----- Putting the nodes back -----

  /** Storage while the nodes stk[m..] have been coloured, from the colours in pool. */
  ghost predicate Selected(k: Task, s: State, m: nat, place: seq<Storage>, pool: set<nat>)
    requires k.Inv(s) && m <= |s.stk|
  {
    && |place| == |k.orig|
    && (forall i: nat {:trigger place[i]} :: i < |place| && i !in s.stk[m..] ==> place[i] == s.place[i])
    && (forall i: nat {:trigger place[i]} ::
          i < |place| && i in s.stk[m..] ==> place[i].Register? && place[i].r in pool)
    && (forall i: nat, j: nat {:trigger Adjacent(k.orig, i, j)} ::
          i != j && i in s.stk[m..] && j in s.stk[m..] && i < |place| && j < |place| && Adjacent(k.orig, i, j) ==>
            place[i].r != place[j].r)
  }

  /** The coloured neighbours of node i below n. */
  ghost function Colored(k: Task, place: seq<Storage>, i: nat, n: nat): set<nat>
    requires |place| == |k.param| == |k.orig| && i < |k.orig|
  {
    set j: nat | j < n && j < |place| && j in k.orig[i] && place[j].Register? && !k.param[j]
  }

  /** The coloured neighbours of the next node to colour were put on the stack after it. */
  lemma ColoredLater(k: Task, s: State, m: nat, place: seq<Storage>, pool: set<nat>)
    requires k.Inv(s) && 0 < m <= |s.stk| && Selected(k, s, m, place, pool) && s.stk[m - 1] < |k.orig|
    ensures Colored(k, place, s.stk[m - 1], |k.orig|) <= k.orig[s.stk[m - 1]] * Elems(s.stk[m..])
  {
    forall j: nat | j in Colored(k, place, s.stk[m - 1], |k.orig|) ensures j in s.stk[m..] {
      assert k.Held(s, j);
    }
  }

  lemma OneMore(near: set<nat>, row: set<nat>, later: set<nat>, pending: set<nat>, i: nat)
    requires near <= row * later && i in row && i !in later
    ensures |near| < |row * (later + {i} + pending)|
  {
    SubsetCardinality(near + {i}, row * (later + {i} + pending));
    assert i !in near;
  }

  lemma NextOnStack(stk: seq<nat>, m: nat)
    requires 0 < m <= |stk| && forall p: nat, q: nat {:trigger stk[p], stk[q]} :: p < q < |stk| ==> stk[p] != stk[q]
    ensures stk[m - 1] in stk && stk[m - 1] !in Elems(stk[m..])
    ensures Elems(stk[m - 1..]) == Elems(stk[m..]) + {stk[m - 1]}
  {
    assert stk[m - 1..] == [stk[m - 1]] + stk[m..];
    forall x ensures x in stk[m - 1..] <==> x in stk[m..] || x == stk[m - 1] {
    }
  }

  /** The next node to colour has fewer coloured neighbours than there are registers. */
  lemma FewColored(k: Task, s: State, m: nat, place: seq<Storage>, pool: set<nat>)
    requires k.Inv(s) && 0 < m <= |s.stk| && Selected(k, s, m, place, pool)
    ensures s.stk[m - 1] < |k.orig| && |Colored(k, place, s.stk[m - 1], |k.orig|)| < k.colors
  {
    var i := s.stk[m - 1];
    NextOnStack(s.stk, m);
    assert k.FewLeft(s, m - 1);
    ColoredLater(k, s, m, place, pool);
    OneMore(Colored(k, place, i, |k.orig|), k.orig[i], Elems(s.stk[m..]), Unremoved(s.removed), i);
  }

  /** A colour that no coloured neighbour has can be given to the next node. */
  lemma ColorNode(k: Task, s: State, m: nat, place: seq<Storage>, pool: set<nat>, r: nat)
    requires k.Inv(s) && 0 < m <= |s.stk| && Selected(k, s, m, place, pool) && s.stk[m - 1] < |place|
    requires r in pool
    requires forall j: nat :: j in Colored(k, place, s.stk[m - 1], |k.orig|) ==> place[j].r != r
    ensures Selected(k, s, m - 1, place[s.stk[m - 1] := Register(r)], pool)
  {
    var i := s.stk[m - 1];
    var place' := place[i := Register(r)];
    assert s.stk[m - 1..] == [i] + s.stk[m..];
    assert forall x :: x in s.stk[m..] ==> x in s.stk;
    forall x: nat, y: nat {:trigger Adjacent(k.orig, x, y)}
      | x != y && x in s.stk[m - 1..] && y in s.stk[m - 1..] && x < |place| && y < |place| && Adjacent(k.orig, x, y)
      ensures place'[x].r != place'[y].r
    {
      NewColor(k, s, m, place, pool, r, x, y);
    }
  }

  /** Two neighbours that have colours when r is given to the next node. */
  lemma NewColor(k: Task, s: State, m: nat, place: seq<Storage>, pool: set<nat>, r: nat, x: nat, y: nat)
    requires k.Inv(s) && 0 < m <= |s.stk| && Selected(k, s, m, place, pool) && s.stk[m - 1] < |place|
    requires forall j: nat :: j in Colored(k, place, s.stk[m - 1], |k.orig|) ==> place[j].r != r
    requires x != y && x in s.stk[m - 1..] && y in s.stk[m - 1..] && x < |place| && y < |place|
      && Adjacent(k.orig, x, y)
    ensures var place' := place[s.stk[m - 1] := Register(r)];
      place'[x].Register? && place'[y].Register? && place'[x].r != place'[y].r
  {
    assert s.stk[m - 1..] == [s.stk[m - 1]] + s.stk[m..];
    assert Adjacent(k.orig, y, x);
  }

  /** What colouring achieves: adjacent nodes in registers have different ones, all from the pool;
      every other node that occurs has a stack slot of its own, because it had to be in memory, or
      because it has more neighbours than there are registers; parameters stay as they were. */
  ghost predicate Proper(k: Task, place: seq<Storage>, pool: set<nat>, slot: nat) {
    && k.Valid() && |place| == |k.orig|
    && (forall i: nat :: i < |place| && k.param[i] ==> place[i] == k.init[i])
    && (forall i: nat :: i < |place| && !k.param[i] && k.orig[i] != {} ==>
          (place[i].Register? && place[i].r in pool)
          || (place[i].Stack? && k.slot0 <= place[i].slot < slot && (k.init[i].InMemory? || |k.orig[i]| > k.colors)))
    && (forall i: nat, j: nat {:trigger Adjacent(k.orig, i, j)} ::
          i != j && i < |place| && j < |place| && Adjacent(k.orig, i, j)
          && !k.param[i] && !k.param[j] && place[i].Register? && place[j].Register?
          ==> place[i].r != place[j].r)
    && (forall i: nat, j: nat {:trigger place[i], place[j]} :: i != j && i < |place| && j < |place|
          && !k.param[i] && !k.param[j] && place[i].Stack? && place[j].Stack?
          ==> place[i].slot != place[j].slot)
  }

  lemma AllColored(k: Task, s: State, place: seq<Storage>, pool: set<nat>)
    requires k.Inv(s) && Selected(k, s, 0, place, pool) && forall i: nat :: i < |s.removed| ==> s.removed[i]
    ensures Proper(k, place, pool, s.slot)
  {
    assert s.stk[0..] == s.stk;
    forall i: nat | i < |place| && !k.param[i] ensures
        (i in s.stk && place[i].Register?) || (i !in s.stk && place[i] == s.place[i] && !place[i].Register?) {
      assert k.Held(s, i);
    }
    forall i: nat | i < |place| && k.param[i] ensures place[i] == k.init[i] {
      assert k.Held(s, i);
    }
    forall i: nat | i < |place| && !k.param[i] && k.orig[i] != {} ensures
          (place[i].Register? && place[i].r in pool)
          || (place[i].Stack? && k.slot0 <= place[i].slot < s.slot && (k.init[i].InMemory? || |k.orig[i]| > k.colors)) {
      assert k.Held(s, i);
    }
    forall i: nat, j: nat | i != j && i < |place| && j < |place| && !k.param[i] && !k.param[j] && place[i].Stack?
      && place[j].Stack?
      ensures place[i].slot != place[j].slot
    {
      assert k.SlotsDiffer(s, i, j);
    }
  }

  // ----- When something must be spilled -----

  /** i competes for a register. */
  predicate Competes(k: Task, i: nat)
    requires |k.orig| == |k.param| == |k.init|
  {
    i < |k.orig| && !k.param[i] && k.init[i].Undecided?
  }

  /** Competing nodes each of which has as many neighbours among them as there are registers: with
      itself, more. */
  ghost predicate Core(k: Task, S: set<nat>)
    requires |k.orig| == |k.param| == |k.init|
  {
    S != {} && forall i :: i in S ==> Competes(k, i) && |k.orig[i] * S| > k.colors
  }

  /** A node that competes has been spilled. */
  ghost predicate SpillsOne(k: Task, place: seq<Storage>)
    requires |k.orig| == |k.param| == |k.init| == |place|
  {
    exists i: nat :: Competes(k, i) && place[i].Stack?
  }

  /** The first node of a core that leaves the graph cannot have few neighbours left. */
  lemma CoreSpills(k: Task, s: State, S: set<nat>)
    requires k.Inv(s) && Core(k, S) && forall i: nat :: i < |s.removed| ==> s.removed[i]
    ensures SpillsOne(k, s.place)
  {
    if forall i :: i in S ==> i in s.stk {
      var p := FirstOf(s.stk, S);
      assert k.FewLeft(s, p);
      SubsetCardinality(k.orig[s.stk[p]] * S, k.orig[s.stk[p]] * (Elems(s.stk[p..]) + Unremoved(s.removed)));
    } else {
      var i :| i in S && i !in s.stk;
      NotEmpty(k, S, i);
      assert k.Held(s, i);
      assert Competes(k, i) && s.place[i].Stack?;
    }
  }

  lemma NotEmpty(k: Task, S: set<nat>, i: nat)
    requires |k.orig| == |k.param| == |k.init| && Core(k, S) && i in S
    ensures k.orig[i] != {}
  {
    assert |k.orig[i] * S| > 0;
  }

  lemma {:induction false} FirstOf(stk: seq<nat>, S: set<nat>) returns (p: nat)
    requires S != {} && forall i :: i in S ==> i in stk
    ensures p < |stk| && stk[p] in S && forall i :: i in S ==> i in Elems(stk[p..])
  {
    if stk[0] in S {
      p := 0;
      assert stk[0..] == stk;
    } else {
      var q := FirstOf(stk[1..], S);
      p := q + 1;
      assert stk[1..][q..] == stk[p..];
    }
  }

  /** Parameters, and nodes that have to be in memory: they are taken out of the graph when first
      visited. */
  predicate Dropped(k: Task, i: nat)
    requires |k.orig| == |k.param| == |k.init|
  {
    i < |k.orig| && (k.param[i] || k.init[i].InMemory?)
  }

  /** The neighbours of i that are left when it is first visited, if nothing has been stacked. */
  ghost function FirstRow(k: Task, i: nat): set<nat>
    requires |k.orig| == |k.param| == |k.init| && i < |k.orig|
  {
    set x | x in k.orig[i] && !(x < i && Dropped(k, x))
  }

  /** The first pass stacks a node, or takes none out for another reason. */
  ghost predicate GoodStart(k: Task)
    requires |k.orig| == |k.param| == |k.init|
  {
    || (forall i: nat :: !Dropped(k, i))
    || (exists i: nat :: Competes(k, i) && k.orig[i] != {} && |FirstRow(k, i)| <= k.colors)
  }

  /** Nodes left that all have many neighbours left are a core. */
  lemma LeftIsCore(k: Task, s: State)
    requires k.Inv(s) && Unremoved(s.removed) != {}
    requires forall i: nat :: i < |s.removed| && !s.removed[i] ==>
      !k.param[i] && s.place[i].Undecided? && |s.rows[i]| > k.colors
    ensures Core(k, Unremoved(s.removed))
  {
    forall i | i in Unremoved(s.removed) ensures Competes(k, i) && |k.orig[i] * Unremoved(s.removed)| > k.colors {
      assert k.Held(s, i) && RowLeft(k.orig, s.rows, s.removed, i);
    }
  }

  /** In the first pass, as long as nothing has been stacked, these are the nodes that have gone. */
  ghost predicate OnlyDropped(k: Task, removed: seq<bool>, n: nat)
    requires |k.orig| == |k.param| == |k.init|
  {
    |removed| == |k.orig|
    && forall i: nat :: i < |removed| ==> (removed[i] <==> i < n && (Dropped(k, i) || k.orig[i] == {}))
  }

  lemma FirstRowIs(k: Task, s: State, i: nat)
    requires k.Inv(s) && i < |k.orig| && OnlyDropped(k, s.removed, i)
    ensures s.rows[i] == FirstRow(k, i)
  {
    assert RowLeft(k.orig, s.rows, s.removed, i);
    forall x ensures x in k.orig[i] * Unremoved(s.removed) <==> x in FirstRow(k, i) {
      if x in k.orig[i] {
        assert Adjacent(k.orig, i, x);
        assert Adjacent(k.orig, x, i);
      }
    }
  }

  /** Giving colours neither spills nor rescues a node. */
  lemma SpilledAlready(k: Task, s: State, place: seq<Storage>, pool: set<nat>)
    requires k.Inv(s) && Selected(k, s, 0, place, pool) && forall i: nat :: i < |s.removed| ==> s.removed[i]
    ensures SpillsOne(k, place) <==> SpillsOne(k, s.place)
    ensures forall i: nat :: i < |place| ==> (place[i].Stack? <==> s.place[i].Stack?)
    ensures forall i: nat :: i < |place| && place[i].Stack? ==> place[i] == s.place[i]
    ensures (exists S: set<nat> :: Core(k, S)) ==> SpillsOne(k, place)
  {
    assert s.stk[0..] == s.stk;
    forall i: nat | i < |place| ensures place[i].Stack? <==> s.place[i].Stack? {
      assert k.Held(s, i);
      assert i in s.stk ==> place[i].Register? && s.place[i].Undecided?;
    }
    if S: set<nat> :| Core(k, S) {
      CoreSpills(k, s, S);
    }
  }

  /** Of the nodes that compete and are spilled, those that count for less than twice the threshold are
      spilled before all others: they have lower slots. */
  ghost predicate CheapFirst(k: Task, place: seq<Storage>, refcnt: seq<real>, threshold: real)
    requires |k.orig| == |k.param| == |k.init| == |place| == |refcnt|
  {
    forall i: nat, j: nat {:trigger place[i], place[j]} ::
      (Competes(k, i) && Competes(k, j) && place[i].Stack? && place[j].Stack?
       && refcnt[i] < 2.0 * threshold <= refcnt[j])
      ==> place[i].slot < place[j].slot
  }

  lemma SpilledInOrder(k: Task, refcnt: seq<real>, threshold: real, place1: seq<Storage>, place2: seq<Storage>,
      place3: seq<Storage>, slot2: nat)
    requires |k.orig| == |k.param| == |k.init| == |refcnt| && |place1| == |place2| == |place3| == |k.orig|
    requires forall i: nat :: Competes(k, i) ==> !place1[i].Stack?
    requires forall i: nat :: i < |place2| && place2[i] != place1[i] ==>
      place2[i].Stack? && place2[i].slot < slot2 && refcnt[i] < 2.0 * threshold
    requires forall i: nat :: i < |place3| && place3[i] != place2[i] ==>
      place3[i].Stack? && slot2 <= place3[i].slot && 2.0 * threshold <= refcnt[i]
    ensures CheapFirst(k, place3, refcnt, threshold)
  {
  }
}
