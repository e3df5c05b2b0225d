/** Graph colouring: the allocator itself. */
module ColoringAllocator {
  import opened Coloring
  import opened Registers

  /** How many of the first n nodes are left. */
  function Left(removed: seq<bool>, n: nat): nat
    requires n <= |removed|
  {
    if n == 0 then 0 else Left(removed, n - 1) + (if removed[n - 1] then 0 else 1)
  }

  /** Taking out a node that is left makes one less. */
  lemma {:induction false} LeftOneLess(removed: seq<bool>, n: nat, i: nat)
    requires n <= |removed| && i < |removed| && !removed[i]
    ensures Left(removed[i := true], n) == Left(removed, n) - (if i < n then 1 else 0)
  {
    if n > 0 {
      LeftOneLess(removed, n - 1, i);
    }
  }

  lemma {:induction false} LeftBound(removed: seq<bool>, n: nat)
    requires n <= |removed|
    ensures (exists i: nat :: i < n && !removed[i]) <==> Left(removed, n) > 0
  {
    if n > 0 {
      LeftBound(removed, n - 1);
    }
  }

  /** What considering node i does: it stays in place or is taken out. */
  ghost predicate Considered(before: seq<bool>, after: seq<bool>, i: nat, left: bool) {
    i < |before| && !before[i] && after == if left then before else before[i := true]
  }

  lemma LeftNext(removed: seq<bool>, i: nat)
    requires i < |removed|
    ensures Left(removed, i + 1) == Left(removed, i) + (if removed[i] then 0 else 1)
  {
  }

  lemma ConsideredLeft(before: seq<bool>, after: seq<bool>, i: nat, stacked: bool, left: bool)
    requires Considered(before, after, i, left) && (stacked ==> !left)
    ensures |after| == |before| && Left(after, i + 1) == Left(before, i) + (if left then 1 else 0)
    ensures Left(after, |after|) + (if stacked then 1 else 0) <= Left(before, |before|)
  {
    LeftOneLess(before, i, i);
    LeftOneLess(before, |before|, i);
    LeftNext(after, i);
  }

  /** How many of the first n nodes compete for a register. */
  function Rivals(param: seq<bool>, place: seq<Storage>, n: nat): nat
    requires n <= |param| == |place|
  {
    if n == 0 then 0
    else Rivals(param, place, n - 1) + (if param[n - 1] || place[n - 1].InMemory? then 0 else 1)
  }

  /** The sum of their reference counts. */
  function Counts(param: seq<bool>, place: seq<Storage>, refcnt: seq<real>, n: nat): real
    requires n <= |param| == |place| == |refcnt|
  {
    if n == 0 then 0.0
    else Counts(param, place, refcnt, n - 1) + (if param[n - 1] || place[n - 1].InMemory? then 0.0 else refcnt[n - 1])
  }

  class Colorer {
    const orig: seq<set<nat>>       // the interference graph, kept for putting nodes back
    const param: seq<bool>
    const refcnt: seq<real>
    const doRefcnt: bool            // reference counts guide the spills
    const regs: RegPool
    const colors: nat               // registers available
    var rows: seq<set<nat>>         // the graph being dismantled
    var removed: seq<bool>
    var deferred: seq<nat>          // how often a node's spill has been put off
    var stk: seq<nat>               // nodes to colour, last to be coloured first
    var place: seq<Storage>
    var slot: nat

    constructor (orig: seq<set<nat>>, param: seq<bool>, refcnt: seq<real>, doRefcnt: bool, regs: RegPool,
        place: seq<Storage>, slot: nat)
      requires |orig| == |param| == |refcnt| == |place| && IsGraph(orig)
      requires forall i: nat :: i < |place| && !param[i] ==> place[i].Undecided? || place[i].InMemory?
      ensures this.orig == orig && this.param == param && this.refcnt == refcnt && this.regs == regs
      ensures this.place == place && this.slot == slot && stk == [] && colors == |regs.free|
      ensures var k := Task(orig, param, place, |regs.free|, slot); k.Inv(Snap())
      ensures |deferred| == |orig| && forall i: nat :: i < |orig| ==> deferred[i] == 0
    {
      this.orig, this.param, this.refcnt, this.doRefcnt, this.regs := orig, param, refcnt, doRefcnt, regs;
      colors := |regs.free|;
      rows := orig;
      removed := seq(|orig|, _ => false);
      deferred := seq(|orig|, _ => 0);
      stk := [];
      this.place, this.slot := place, slot;
      new;
      InitialState(Task(orig, param, place, |regs.free|, slot), removed);
    }

    ghost function Snap(): State
      reads this
    {
      State(rows, removed, stk, place, slot)
    }

    ghost predicate Ready(k: Task)
      reads this
    {
      && k.orig == orig && k.param == param && k.colors == colors && k.Inv(Snap())
      && |orig| == |refcnt| == |deferred| && forall i: nat :: i < |deferred| ==> deferred[i] <= 2
    }

    /** Take node i out of the graph: clear its bit in its neighbours' rows, and its own row. */
    method RemoveNode(i: nat)
      requires i < |rows| == |removed| && forall x :: x in rows[i] ==> x < |rows|
      modifies this`rows, this`removed
      ensures rows == WithoutNode(old(rows), i) && removed == old(removed)[i := true]
    {
      var bits := rows[i];
      for n := 0 to |rows|
        invariant |rows| == |old(rows)| && removed == old(removed)
        invariant forall j: nat :: j < |rows| ==>
          rows[j] == if j in bits && j < n then old(rows)[j] - {i} else old(rows)[j]
      {
        if n in bits {
          rows := rows[n := rows[n] - {i}];
        }
      }
      rows := rows[i := {}];
      removed := removed[i := true];
    }

    /** Drop a parameter's node. */
    method Drop(i: nat, ghost k: Task)
      requires Ready(k) && i < |orig| && param[i]
      modifies this`rows, this`removed
      ensures Ready(k) && removed == old(removed)[i := true]
    {
      RowsInRange(k, Snap(), i);
      DropParam(k, Snap(), i);
      RemoveNode(i);
    }

    /** Spill node i. */
    method Spill(i: nat, ghost k: Task)
      requires Ready(k) && i < |orig| && !param[i] && !removed[i]
      requires place[i].InMemory? || |orig[i]| > k.colors
      modifies this`rows, this`removed, this`place, this`slot
      ensures Ready(k) && removed == old(removed)[i := true]
      ensures place == old(place)[i := Stack(old(slot))] && slot == old(slot) + 1
    {
      ghost var s := Snap();
      RowsInRange(k, s, i);
      SpillNode(k, s, i);
      place := place[i := Stack(slot)];
      slot := slot + 1;
      RemoveNode(i);
      assert Snap() == s.(rows := WithoutNode(s.rows, i), removed := s.removed[i := true],
        place := s.place[i := Stack(s.slot)], slot := s.slot + 1);
    }

    /** Forget a node that does not occur. */
    method Forget(i: nat, ghost k: Task)
      requires Ready(k) && i < |orig| && !param[i] && !removed[i] && rows[i] == {} && place[i].Undecided?
      modifies this`removed
      ensures Ready(k) && removed == old(removed)[i := true]
    {
      ForgetNode(k, Snap(), i);
      removed := removed[i := true];
    }

    /** Put node i on the stack of nodes to colour. */
    method Push(i: nat, ghost k: Task)
      requires Ready(k) && i < |orig| && !param[i] && !removed[i] && place[i].Undecided?
      requires rows[i] != {} && |rows[i]| <= k.colors
      modifies this`rows, this`removed, this`stk
      ensures Ready(k) && removed == old(removed)[i := true]
    {
      RowsInRange(k, Snap(), i);
      PushNode(k, Snap(), i);
      stk := stk + [i];
      RemoveNode(i);
    }

    /** What is left after the first pass: nodes that occur and compete for a register. */
    ghost predicate Contenders(n: nat)
      requires |removed| == |orig| == |param| == |place|
      reads this
    {
      forall i: nat :: i < n && i < |removed| && !removed[i] ==> !param[i] && place[i].Undecided? && orig[i] != {}
    }

    /** No local that competes has moved. */
    ghost predicate KeepsCompeting(k: Task, place0: seq<Storage>, place1: seq<Storage>)
      requires |k.orig| == |k.param| == |k.init|
    {
      |place0| == |place1| == |k.orig| && forall j: nat :: Competes(k, j) ==> place1[j] == place0[j]
    }

    /** One node in the first phase. Returns whether the node was stacked, or else left. */
    method Consider(i: nat, ghost k: Task) returns (stacked: bool, left: bool)
      requires Ready(k) && i < |orig| && !removed[i] && Contenders(i)
      modifies this`rows, this`removed, this`stk, this`place, this`slot
      ensures Ready(k) && Considered(old(removed), removed, i, left) && Contenders(i + 1)
      ensures stacked ==> !left
      ensures stacked || left <==> !Dropped(k, i) && orig[i] != {}
      ensures !stacked && !Dropped(k, i) ==> rows == old(rows)
      ensures left ==> |rows[i]| > colors
      ensures KeepsCompeting(k, old(place), place)
    {
      stacked, left := false, false;
      StillRows(k, Snap(), i);
      assert k.Held(Snap(), i) && RowLeft(orig, rows, removed, i);
      if param[i] {
        Drop(i, k);
        return;
      }
      if place[i].InMemory? {
        Spill(i, k);
        return;
      }
      var valence := |rows[i]|;
      if valence == 0 {
        Forget(i, k);
        return;
      }
      if valence <= colors {
        Push(i, k);
        stacked := true;
      } else {
        left := true;
      }
    }

    /** One node in the first phase, unless it is gone already. */
    method Visit(i: nat, ghost k: Task) returns (stacked: bool, left: bool)
      requires Ready(k) && i < |orig| && Contenders(i)
      modifies this`rows, this`removed, this`stk, this`place, this`slot
      ensures Ready(k) && Contenders(i + 1)
      ensures Left(removed, i + 1) == Left(old(removed), i) + (if left then 1 else 0)
      ensures Left(removed, |orig|) + (if stacked then 1 else 0) <= Left(old(removed), |orig|)
      ensures removed == if old(removed)[i] || left then old(removed) else old(removed)[i := true]
      ensures !old(removed)[i] ==> (stacked || left <==> !Dropped(k, i) && orig[i] != {})
      ensures !stacked && (!Dropped(k, i) || old(removed)[i]) ==> rows == old(rows)
      ensures left ==> |rows[i]| > colors
      ensures stacked || left ==> !old(removed)[i]
      ensures KeepsCompeting(k, old(place), place)
    {
      if removed[i] {
        LeftNext(removed, i);
        return false, false;
      }
      ghost var before := removed;
      stacked, left := Consider(i, k);
      ConsideredLeft(before, removed, i, stacked, left);
    }

    /** No node that is left is a parameter or has to be in memory. */
    ghost predicate Plain(k: Task)
      requires |k.orig| == |k.param| == |k.init|
      reads this
    {
      forall j: nat :: j < |removed| && !removed[j] ==> !Dropped(k, j)
    }

    /** The nodes left below n have many neighbours left. */
    ghost predicate Hard(k: Task, n: nat)
      reads this
    {
      |rows| == |removed| && forall j: nat :: j < n && j < |rows| && !removed[j] ==> |rows[j]| > k.colors
    }

    /** The nodes below n had, when first visited. */
    ghost predicate HardAtFirst(k: Task, n: nat)
      requires |k.orig| == |k.param| == |k.init|
    {
      forall j: nat :: j < n && Competes(k, j) && k.orig[j] != {} ==> |FirstRow(k, j)| > k.colors
    }

    /** One pass of the first phase. Returns how many nodes were stacked and how many are left. */
    method Pass(ghost k: Task) returns (nremoved: nat, nnodes: nat)
      requires Ready(k)
      modifies this`rows, this`removed, this`stk, this`place, this`slot
      ensures Ready(k) && Contenders(|orig|) && nnodes == Left(removed, |orig|)
      ensures nnodes + nremoved <= Left(old(removed), |orig|)
      ensures KeepsCompeting(k, old(place), place)
      ensures old(Plain(k)) && nremoved == 0 ==> Hard(k, |orig|)
      ensures old(OnlyDropped(k, removed, 0)) && nremoved == 0 ==> HardAtFirst(k, |orig|)
    {
      nremoved, nnodes := 0, 0;
      ghost var plain, first := Plain(k), OnlyDropped(k, removed, 0);
      for i := 0 to |orig|
        invariant Ready(k) && Contenders(i) && nnodes == Left(removed, i)
        invariant Left(removed, |orig|) + nremoved <= Left(old(removed), |orig|)
        invariant KeepsCompeting(k, old(place), place)
        invariant Passing(k, i, plain, first, nremoved == 0)
      {
        var stacked, left := PassStep(i, k, plain, first, nremoved == 0);
        if stacked {
          nremoved := nremoved + 1;
        }
        if left {
          nnodes := nnodes + 1;
        }
      }
    }

    /** What a pass knows of the nodes below i, when it began with no node to drop, or with the whole
        graph, and has stacked none. */
    ghost predicate Passing(k: Task, i: nat, plain: bool, first: bool, none: bool)
      requires |k.orig| == |k.param| == |k.init|
      reads this
    {
      && (plain ==> Plain(k)) && (plain && none ==> Hard(k, i))
      && (first && none ==> OnlyDropped(k, removed, i) && HardAtFirst(k, i))
    }

    /** One node of a pass. */
    method PassStep(i: nat, ghost k: Task, ghost plain: bool, ghost first: bool, ghost none: bool)
      returns (stacked: bool, left: bool)
      requires Ready(k) && i < |orig| && Contenders(i) && Passing(k, i, plain, first, none)
      modifies this`rows, this`removed, this`stk, this`place, this`slot
      ensures Ready(k) && Contenders(i + 1) && Passing(k, i + 1, plain, first, none && !stacked)
      ensures Left(removed, i + 1) == Left(old(removed), i) + (if left then 1 else 0)
      ensures Left(removed, |orig|) + (if stacked then 1 else 0) <= Left(old(removed), |orig|)
      ensures KeepsCompeting(k, old(place), place)
    {
      if OnlyDropped(k, removed, i) {
        FirstRowIs(k, Snap(), i);
      }
      stacked, left := Visit(i, k);
    }

    /** The first phase: stack nodes with few neighbours until none is left or none can be. */
    method Dismantle(ghost k: Task) returns (nnodes: nat)
      requires Ready(k)
      modifies this`rows, this`removed, this`stk, this`place, this`slot
      ensures Ready(k) && Contenders(|orig|) && nnodes == Left(removed, |orig|)
      ensures KeepsCompeting(k, old(place), place)
      ensures old(OnlyDropped(k, removed, 0)) && GoodStart(k) && nnodes > 0 ==> Core(k, Unremoved(removed))
    {
      ghost var first, good := OnlyDropped(k, removed, 0), GoodStart(k);
      var nremoved;
      ghost var started := false;
      while true
        invariant Ready(k) && KeepsCompeting(k, old(place), place)
        invariant if started then Plain(k) else first ==> OnlyDropped(k, removed, 0)
        decreases Left(removed, |orig|)
      {
        ghost var plain := Plain(k);
        nremoved, nnodes := Pass(k);
        if !(nnodes > 0 && nremoved > 0) {
          if first && good && nnodes > 0 {
            FirstOrPlain(k, started, plain);
            HardIsCore(k);
          }
          break;
        }
        started := true;
        ContendersPlain(k);
      }
    }

    lemma HardIsCore(k: Task)
      requires Ready(k) && Contenders(|orig|) && Hard(k, |orig|) && Left(removed, |orig|) > 0
      ensures Core(k, Unremoved(removed))
    {
      LeftBound(removed, |orig|);
      var i: nat :| i < |orig| && !removed[i];
      assert i in Unremoved(removed);
      LeftIsCore(k, Snap());
    }

    lemma ContendersPlain(k: Task)
      requires Ready(k) && Contenders(|orig|)
      ensures Plain(k)
    {
      forall j: nat | j < |removed| && !removed[j] ensures !Dropped(k, j) {
        assert k.Held(Snap(), j);
      }
    }

    /** After a pass that stacks nothing, all nodes left are hard, unless it was the first pass and
        nodes were dropped in it. */
    lemma FirstOrPlain(k: Task, started: bool, plain: bool)
      requires Ready(k) && GoodStart(k) && (started ==> plain) && (plain ==> Hard(k, |orig|))
      requires !started && (forall j: nat :: !Dropped(k, j)) ==> plain
      requires !started ==> HardAtFirst(k, |orig|)
      ensures Hard(k, |orig|)
    {
    }

    /** A node left over after the first phase: stack it if it has become easy. */
    method TryPush(i: nat, ghost k: Task) returns (pushed: bool)
      requires Ready(k) && Contenders(|orig|) && i < |orig| && !removed[i]
      modifies this`rows, this`removed, this`stk
      ensures Ready(k) && Contenders(|orig|) && Considered(old(removed), removed, i, !pushed)
      ensures pushed <==> |old(rows)[i]| <= colors
      ensures !pushed ==> |orig[i]| > k.colors
    {
      StillOccurs(k, Snap(), i);
      FewerLeft(k, Snap(), i);
      if |rows[i]| <= colors {
        Push(i, k);
        return true;
      }
      return false;
    }

    /** Spill a node left over after the first phase. */
    method SpillLeft(i: nat, ghost k: Task)
      requires Ready(k) && Contenders(|orig|) && i < |orig| && !removed[i] && |orig[i]| > k.colors
      modifies this`rows, this`removed, this`place, this`slot
      ensures Ready(k) && Contenders(|orig|) && Left(removed, |orig|) + 1 == Left(old(removed), |orig|)
      ensures place == old(place)[i := Stack(old(slot))] && slot == old(slot) + 1
    {
      LeftOneLess(removed, |orig|, i);
      Spill(i, k);
    }

    /** Since storage was place0, and slot0 the next slot, only nodes that count for less than twice the
        threshold have moved, or else only others, and all into later slots. */
    ghost predicate SpillsOnly(place0: seq<Storage>, slot0: nat, threshold: real, cheap: bool)
      reads this
    {
      && |place| == |place0| == |refcnt| && slot0 <= slot
      && forall i: nat :: i < |place| && place[i] != place0[i] ==>
           place[i].Stack? && slot0 <= place[i].slot < slot && (refcnt[i] < 2.0 * threshold <==> cheap)
    }

    /** All nodes left count for at least twice the threshold. */
    ghost predicate Expensive(threshold: real)
      reads this
    {
      forall i: nat :: i < |removed| && i < |refcnt| && !removed[i] ==> 2.0 * threshold <= refcnt[i]
    }

    /** The second phase: stack what has become easy, and spill, one node at a time, a node that counts
        for less than twice the threshold and has the most neighbours, as long as there is one. */
    method SpillCheap(nnodes0: nat, threshold: real, ghost k: Task) returns (nnodes: nat)
      requires Ready(k) && Contenders(|orig|) && nnodes0 == Left(removed, |orig|)
      modifies this`rows, this`removed, this`stk, this`place, this`slot
      ensures Ready(k) && Contenders(|orig|) && nnodes == Left(removed, |orig|)
      ensures nnodes0 == 0 ==> nnodes == 0 && place == old(place)
      ensures SpillsOnly(old(place), old(slot), threshold, true)
      ensures nnodes > 0 ==> Expensive(threshold)
    {
      nnodes := nnodes0;
      while nnodes > 0
        invariant Ready(k) && Contenders(|orig|) && nnodes == Left(removed, |orig|)
        invariant nnodes0 == 0 ==> nnodes == 0 && place == old(place)
        invariant SpillsOnly(old(place), old(slot), threshold, true)
      {
        var target;
        nnodes, target := FindTarget(nnodes, threshold, k);
        if nnodes > 0 {
          if target != -1 {
            SpillLeft(target, k);
            nnodes := nnodes - 1;
          } else {
            break;
          }
        }
      }
    }

    /** One pass of the second phase. */
    method FindTarget(nnodes0: nat, threshold: real, ghost k: Task) returns (nnodes: nat, target: int)
      requires Ready(k) && Contenders(|orig|) && nnodes0 == Left(removed, |orig|) > 0
      modifies this`rows, this`removed, this`stk
      ensures Ready(k) && Contenders(|orig|) && nnodes == Left(removed, |orig|) <= nnodes0
      ensures target == -1 || (0 <= target < |orig| && !removed[target] && |orig[target]| > k.colors)
      ensures target != -1 ==> refcnt[target] < 2.0 * threshold
      ensures nnodes > 0 && target == -1 ==>
        forall i: nat :: i < |orig| && !removed[i] ==> 2.0 * threshold <= refcnt[i]
    {
      nnodes, target := nnodes0, -1;
      var mc := 0;
      for i := 0 to |orig|
        invariant Targeting(k, i, nnodes, threshold, target, mc) && nnodes <= nnodes0
      {
        if !removed[i] {
          nnodes, target, mc := TargetStep(i, nnodes, threshold, target, mc, k);
          if nnodes == 0 {
            return;
          }
        }
      }
    }

    /** The nodes below i have been looked at; nnodes are left. */
    ghost predicate Targeting(k: Task, i: nat, nnodes: nat, threshold: real, target: int, mc: nat)
      reads this
    {
      && Ready(k) && Contenders(|orig|) && 0 < nnodes == Left(removed, |orig|)
      && (target == -1 || (0 <= target < i && target < |orig| && !removed[target] && |orig[target]| > k.colors
                           && refcnt[target] < 2.0 * threshold))
      && (target == -1 ==> mc == 0)
      && (target == -1 ==>
            forall j: nat :: j < i && j < |orig| && !removed[j] ==> 2.0 * threshold <= refcnt[j])
    }

    /** One node of that pass, if it is left. */
    method TargetStep(i: nat, nnodes0: nat, threshold: real, target0: int, mc0: nat, ghost k: Task)
      returns (nnodes: nat, target: int, mc: nat)
      requires Targeting(k, i, nnodes0, threshold, target0, mc0) && i < |orig| && !removed[i]
      modifies this`rows, this`removed, this`stk
      ensures nnodes <= nnodes0 && (nnodes > 0 ==> Targeting(k, i + 1, nnodes, threshold, target, mc))
      ensures Ready(k) && Contenders(|orig|) && nnodes == Left(removed, |orig|) && (nnodes == 0 ==> target == target0)
      ensures target0 != -1 ==> target0 < i && !removed[target0]
      ensures var size := |old(rows)[i]|;
        if size > colors && refcnt[i] < 2.0 * threshold && size > mc0 then target == i && mc == size
        else target == target0 && mc == mc0
    {
      nnodes, target, mc := nnodes0, target0, mc0;
      LeftOneLess(removed, |orig|, i);
      var valence := |rows[i]|;
      var pushed := TryPush(i, k);
      if pushed {
        nnodes := nnodes - 1;
      } else if refcnt[i] < 2.0 * threshold && valence > mc {
        mc := valence;
        target := i;
      }
    }

    /** One node in the last phase: it is stacked, or spilled, or put off once more. */
    method FinalVisit(i: nat, threshold: real, ghost k: Task) returns (gone: bool)
      requires Ready(k) && Contenders(|orig|) && i < |orig| && !removed[i]
      modifies this`rows, this`removed, this`stk, this`place, this`slot, this`deferred
      ensures Ready(k) && Contenders(|orig|)
      ensures Left(removed, |orig|) == Left(old(removed), |orig|) - (if gone then 1 else 0)
      ensures gone <==> |old(rows)[i]| <= colors || !doRefcnt || old(deferred)[i] > 1 || refcnt[i] < 3.0 * threshold
      ensures place == if gone && |old(rows)[i]| > colors then old(place)[i := Stack(old(slot))] else old(place)
      ensures slot == if gone && |old(rows)[i]| > colors then old(slot) + 1 else old(slot)
      ensures removed == if gone then old(removed)[i := true] else old(removed)
      ensures deferred == if gone then old(deferred) else old(deferred)[i := old(deferred)[i] + 1]
      ensures Potential(removed, deferred, |orig|) < Potential(old(removed), old(deferred), |orig|)
    {
      LeftOneLess(removed, |orig|, i);
      PotentialDrops(removed, deferred, |orig|, i);
      gone := TryPush(i, k);
      if gone {
        return;
      }
      if !doRefcnt || deferred[i] > 1 || refcnt[i] < 3.0 * threshold {
        Spill(i, k);
        return true;
      }
      deferred := deferred[i := deferred[i] + 1];
    }

    /** The last phase: stack or spill every node that is left; a node with a high count is put off
        up to twice. */
    method SpillRest(nnodes0: nat, threshold: real, ghost k: Task)
      requires Ready(k) && Contenders(|orig|) && nnodes0 == Left(removed, |orig|)
      requires nnodes0 > 0 ==> Expensive(threshold)
      modifies this`rows, this`removed, this`stk, this`place, this`slot, this`deferred
      ensures Ready(k) && Left(removed, |orig|) == 0
      ensures nnodes0 == 0 ==> place == old(place)
      ensures SpillsOnly(old(place), old(slot), threshold, false)
    {
      var nnodes := nnodes0;
      while nnodes > 0
        invariant Finishing(k, nnodes)
        invariant (nnodes > 0 ==> Expensive(threshold)) && SpillsOnly(old(place), old(slot), threshold, false)
        invariant nnodes0 == 0 ==> nnodes == 0 && place == old(place)
        decreases Worth()
      {
        nnodes := FinalPass(nnodes, threshold, k, old(place), old(slot));
      }
    }

    /** In the last phase, nnodes nodes are left. */
    ghost predicate Finishing(k: Task, nnodes: nat)
      reads this
    {
      Ready(k) && Contenders(|orig|) && nnodes == Left(removed, |orig|)
    }

    ghost function Worth(): nat
      requires |orig| <= |removed| == |deferred|
      reads this
    {
      Potential(removed, deferred, |orig|)
    }

    /** One node in the last phase, if it is left. Returns how many nodes are left then. */
    method FinalStep(i: nat, nnodes0: nat, threshold: real, ghost k: Task, ghost place0: seq<Storage>,
        ghost slot0: nat) returns (nnodes: nat)
      requires Finishing(k, nnodes0) && i < |orig|
      requires Expensive(threshold) && SpillsOnly(place0, slot0, threshold, false)
      modifies this`rows, this`removed, this`stk, this`place, this`slot, this`deferred
      ensures Finishing(k, nnodes)
      ensures Expensive(threshold) && SpillsOnly(place0, slot0, threshold, false)
      ensures if old(removed)[i] then removed == old(removed) && Worth() == old(Worth()) else Worth() < old(Worth())
    {
      nnodes := nnodes0;
      if !removed[i] {
        LeftOneLess(removed, |orig|, i);
        var gone := FinalVisit(i, threshold, k);
        if gone {
          nnodes := nnodes - 1;
        }
      }
    }

    /** One pass of the last phase. */
    method FinalPass(nnodes0: nat, threshold: real, ghost k: Task, ghost place0: seq<Storage>, ghost slot0: nat)
      returns (nnodes: nat)
      requires Finishing(k, nnodes0) && nnodes0 > 0
      requires Expensive(threshold) && SpillsOnly(place0, slot0, threshold, false)
      modifies this`rows, this`removed, this`stk, this`place, this`slot, this`deferred
      ensures Finishing(k, nnodes) && Worth() < old(Worth())
      ensures Expensive(threshold) && SpillsOnly(place0, slot0, threshold, false)
    {
      nnodes := nnodes0;
      LeftBound(removed, |orig|);
      ghost var some: nat :| some < |orig| && !removed[some];
      ghost var worth := Worth();
      for i := 0 to |orig|
        invariant Finishing(k, nnodes)
        invariant Expensive(threshold) && SpillsOnly(place0, slot0, threshold, false)
        invariant Worth() < worth || (Worth() == worth && i <= some && !removed[some])
      {
        nnodes := FinalStep(i, nnodes, threshold, k, place0, slot0);
      }
    }

    /** Withdraw the registers of the coloured neighbours of node i. */
    method WithdrawNeighbours(i: nat, ghost k: Task)
      requires k.orig == orig && k.param == param && |orig| == |param| == |place| && i < |orig|
      modifies regs`free
      ensures regs.free <= old(regs.free)
      ensures forall j: nat :: j in Colored(k, place, i, |orig|) ==> place[j].r !in regs.free
      ensures |regs.free| + |Colored(k, place, i, |orig|)| >= |old(regs.free)|
    {
      for j := 0 to |orig|
        invariant regs.free <= old(regs.free)
        invariant forall x: nat :: x in Colored(k, place, i, j) ==> place[x].r !in regs.free
        invariant |regs.free| + |Colored(k, place, i, j)| >= |old(regs.free)|
      {
        if j in orig[i] && place[j].Register? && !param[j] {
          assert Colored(k, place, i, j + 1) == Colored(k, place, i, j) + {j};
          regs.Use(place[j].r);
        } else {
          assert Colored(k, place, i, j + 1) == Colored(k, place, i, j);
        }
      }
    }

    /** Colour the next node on the stack. */
    method ColorNext(ghost k: Task, ghost s: State)
      requires k.orig == orig && k.param == param && k.Inv(s) && 0 < |stk| <= |s.stk| && stk == s.stk[..|stk|]
      requires Selected(k, s, |stk|, place, regs.free) && regs.free == regs.all - regs.mask && |regs.free| == k.colors
      modifies this`stk, this`place, regs`free
      ensures stk == old(stk)[..|old(stk)| - 1] && regs.free == old(regs.free)
      ensures Selected(k, s, |stk|, place, regs.free)
    {
      ghost var m, pool := |stk|, regs.free;
      assert stk[m - 1] == s.stk[m - 1];
      FewColored(k, s, m, place, pool);
      var i := stk[|stk| - 1];
      stk := stk[..|stk| - 1];
      WithdrawNeighbours(i, k);
      assert regs.free != {};
      var r := regs.Get();
      ColorNode(k, s, m, place, pool, r);
      place := place[i := Register(r)];
      regs.Mask();
    }

    /** Half the average count of the nodes that compete for a register, or 0 when nodes do not count. */
    ghost function ThresholdFor(place: seq<Storage>): real
      requires |param| == |refcnt| == |place|
    {
      var n := Rivals(param, place, |place|);
      if doRefcnt && n > 0 then Counts(param, place, refcnt, |place|) / (2 * n) as real else 0.0
    }

    method Threshold() returns (threshold: real)
      requires |orig| == |param| == |refcnt| == |place|
      ensures threshold == ThresholdFor(place)
    {
      threshold := 0.0;
      if doRefcnt {
        var t, n := 0.0, 0;
        for i := 0 to |orig|
          invariant t == Counts(param, place, refcnt, i) && n == Rivals(param, place, i)
        {
          if !(param[i] || place[i].InMemory?) {
            t, n := t + refcnt[i], n + 1;
          }
        }
        if n > 0 {
          threshold := t / (2 * n) as real;
        }
      }
    }

    /** Colour the nodes on the stack. */
    method ColorStack(ghost k: Task)
      requires Ready(k) && Left(removed, |orig|) == 0 && |regs.free| == k.colors && regs.free == regs.all - regs.mask
      modifies this`stk, this`place, regs`free
      ensures Selected(k, old(Snap()), 0, place, regs.free) && Proper(k, place, regs.free, slot)
      ensures regs.free == old(regs.free)
    {
      LeftBound(removed, |orig|);
      ghost var s := Snap();
      assert s.stk[|stk|..] == [];
      while |stk| > 0
        invariant |stk| <= |s.stk| && stk == s.stk[..|stk|]
        invariant Selected(k, s, |stk|, place, regs.free) && regs.free == old(regs.free)
      {
        ColorNext(k, s);
      }
      AllColored(k, s, place, regs.free);
    }

    /** All three phases: every node is stacked, spilled or forgotten. */
    method TakeApart(threshold: real, ghost k: Task)
      requires Ready(k)
      modifies this`rows, this`removed, this`stk, this`place, this`slot, this`deferred
      ensures Ready(k) && Left(removed, |orig|) == 0
      ensures old(OnlyDropped(k, removed, 0)) ==> CheapFirst(k, place, refcnt, threshold)
      ensures old(OnlyDropped(k, removed, 0)) && GoodStart(k) && SpillsOne(k, place) ==>
        exists S: set<nat> :: Core(k, S)
    {
      if OnlyDropped(k, removed, 0) {
        NoneSpilledYet(k, Snap());
      }
      var nnodes := Dismantle(k);
      ghost var left, place1 := nnodes, place;
      nnodes := SpillCheap(nnodes, threshold, k);
      ghost var place2, slot2 := place, slot;
      SpillRest(nnodes, threshold, k);
      assert left == 0 ==> place == place1;
      if old(OnlyDropped(k, removed, 0)) {
        SpilledInOrder(k, refcnt, threshold, place1, place2, place, slot2);
      }
    }

    /** Colour the interference graph. */
    method Color(ghost k: Task)
      requires Ready(k) && stk == [] && colors == |regs.free| && regs.free == regs.all - regs.mask
      modifies this`rows, this`removed, this`stk, this`place, this`slot, this`deferred, regs`free, regs`mask
      ensures Proper(k, place, old(regs.free), slot)
      ensures (exists S: set<nat> :: Core(k, S)) ==> SpillsOne(k, place)
      ensures old(OnlyDropped(k, removed, 0)) ==> CheapFirst(k, place, refcnt, old(ThresholdFor(place)))
      ensures old(OnlyDropped(k, removed, 0)) && GoodStart(k) && SpillsOne(k, place) ==>
        exists S: set<nat> :: Core(k, S)
      ensures regs.mask == {}
    {
      var threshold := Threshold();
      TakeApart(threshold, k);
      LeftBound(removed, |orig|);
      ghost var s := Snap();
      ColorStack(k);
      SpilledAlready(k, s, place, regs.free);
      regs.ResetMask();
    }
  }

  /** Every node left is worth three visits, less those by which it has been put off. */
  ghost function Potential(removed: seq<bool>, deferred: seq<nat>, n: nat): nat
    requires n <= |removed| == |deferred|
  {
    if n == 0 then 0
    else
      var worth := if removed[n - 1] || deferred[n - 1] > 3 then 0 else 3 - deferred[n - 1];
      Potential(removed, deferred, n - 1) + worth
  }

  lemma {:induction false} PotentialDrops(removed: seq<bool>, deferred: seq<nat>, n: nat, i: nat)
    requires n <= |removed| == |deferred| && i < |removed| && !removed[i] && deferred[i] <= 2
    ensures i < n ==> Potential(removed[i := true], deferred, n) < Potential(removed, deferred, n)
    ensures i < n ==> Potential(removed, deferred[i := deferred[i] + 1], n) < Potential(removed, deferred, n)
    ensures i >= n ==> Potential(removed[i := true], deferred, n) == Potential(removed, deferred, n)
    ensures i >= n ==> Potential(removed, deferred[i := deferred[i] + 1], n) == Potential(removed, deferred, n)
  {
    if n > 0 {
      PotentialDrops(removed, deferred, n - 1, i);
    }
  }

  /** A node that occurs and is left still has its own bit. */
  lemma StillOccurs(k: Task, s: State, i: nat)
    requires k.Inv(s) && i < |s.rows| && !s.removed[i] && k.orig[i] != {}
    ensures i in s.rows[i]
  {
    assert RowLeft(k.orig, s.rows, s.removed, i);
    assert i in k.orig[i] * Unremoved(s.removed);
  }

  lemma NoneSpilledYet(k: Task, s: State)
    requires k.Inv(s) && forall i: nat :: i < |s.removed| ==> !s.removed[i]
    ensures !SpillsOne(k, s.place)
  {
    forall i: nat | Competes(k, i) ensures !s.place[i].Stack? {
      assert k.Held(s, i);
    }
  }

  lemma StillRows(k: Task, s: State, i: nat)
    requires k.Inv(s) && i < |s.rows| && !s.removed[i]
    ensures s.rows[i] == {} <==> k.orig[i] == {}
    ensures s.place[i] == k.init[i]
  {
    assert k.Held(s, i) && RowLeft(k.orig, s.rows, s.removed, i);
    if k.orig[i] != {} {
      StillOccurs(k, s, i);
    }
  }

  lemma InitialState(k: Task, removed: seq<bool>)
    requires k.Valid() && |removed| == |k.orig| && forall i: nat :: i < |removed| ==> !removed[i]
    ensures k.Inv(State(k.orig, removed, [], k.init, k.slot0))
  {
    forall i: nat | i < |k.orig| ensures RowLeft(k.orig, k.orig, removed, i) {
      forall x: nat | x in k.orig[i] ensures x in Unremoved(removed) {
        assert Adjacent(k.orig, i, x);
      }
    }
  }

  lemma RowsInRange(k: Task, s: State, i: nat)
    requires k.Inv(s) && i < |s.rows|
    ensures forall x :: x in s.rows[i] ==> x < |s.rows|
  {
    assert RowLeft(k.orig, s.rows, s.removed, i);
    forall x: nat | x in s.rows[i] ensures x < |s.rows| {
      assert Adjacent(k.orig, i, x);
    }
  }
}
