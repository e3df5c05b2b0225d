/** Solving for live variables by counter-driven relaxation over the blocks in layout order. */
module Relaxation {
  import opened Graphs
  import opened Icode
  import opened Liveness

  datatype Vector = Absent | Present(bits: set<Local>) {
    function Bits(): set<Local> {
      if Present? then bits else {}
    }
  }

  function Sum(s: seq<nat>): nat {
    if s == [] then 0 else Sum(s[..|s| - 1]) + s[|s| - 1]
  }

  lemma {:induction false} SumUpdate(s: seq<nat>, k: nat, x: nat)
    requires k < |s|
    ensures Sum(s[k := x]) == Sum(s) - s[k] + x
  {
    var t := s[k := x];
    if k == |s| - 1 {
      assert t[..|s| - 1] == s[..|s| - 1];
    } else {
      assert t[..|s| - 1] == s[..|s| - 1][k := x];
      SumUpdate(s[..|s| - 1], k, x);
    }
  }

  lemma {:induction false} SumZero(s: seq<nat>)
    ensures Sum(s) == 0 <==> forall k: nat :: k < |s| ==> s[k] == 0
  {
    if s != [] {
      SumZero(s[..|s| - 1]);
      assert forall k: nat :: k < |s| - 1 ==> s[..|s| - 1][k] == s[k];
    }
  }

  /** What is known of each block: the vectors computed so far, and how many of its successors'
      changes it has not taken in. */
  datatype State = State(liveIn: seq<Vector>, liveOut: seq<set<Local>>, updates: seq<nat>, pending: int) {

    ghost predicate Shape(q: Problem) {
      q.Valid() && |liveIn| == |liveOut| == |updates| == |q.g.succ|
    }

    /** Only live variables have been found. */
    ghost predicate Sound(q: Problem)
      requires Shape(q)
    {
      forall b: nat {:trigger SoundAt(q, b)} :: b < |liveIn| ==> SoundAt(q, b)
    }

    ghost predicate SoundAt(q: Problem, b: nat)
      requires Shape(q) && b < |liveIn|
    {
      && (forall v :: v in liveIn[b].Bits() ==> q.Live(b, v))
      && (forall v :: v in liveOut[b] ==> q.LiveOut(b, v))
    }

    /** A block that has been visited satisfies its own equation. */
    ghost predicate Local(q: Problem)
      requires Shape(q)
    {
      forall b: nat :: b < |liveIn| && liveIn[b].Present? ==> liveIn[b].bits == q.use[b] + (liveOut[b] - q.def[b])
    }

    /** A visited block with a zero counter is consistent with its successors. */
    ghost predicate Settled(q: Problem)
      requires Shape(q)
    {
      forall b: nat, s: nat {:trigger q.g.Edge(b, s)} ::
        b < |liveIn| && s < |liveIn| && liveIn[b].Present? && updates[b] == 0 && q.g.Edge(b, s) ==>
          liveIn[s].Bits() <= liveOut[b]
    }

    /** The global counter is the sum of the blocks' counters, and sinks have nothing to take in. */
    ghost predicate Counted(q: Problem)
      requires Shape(q)
    {
      && pending == Sum(updates)
      && (forall b: nat :: b < |updates| && updates[b] > 0 ==> q.g.succ[b] != [])
    }

    ghost predicate Inv(q: Problem) {
      Shape(q) && Sound(q) && Local(q) && Settled(q) && Counted(q)
    }

    /** What may still be added to the live-in vectors. */
    ghost function Remaining(universe: set<Local>): set<(nat, Local)> {
      set b: nat, v | b < |liveIn| && v in universe && v !in liveIn[b].Bits() :: (b, v)
    }
  }

  /** The vectors block b computes from its successors. */
  ghost predicate Joins(q: Problem, s: State, b: nat, n: nat, out: set<Local>)
    requires s.Shape(q) && b < |s.liveIn| && n <= |q.g.succ[b]|
  {
    && s.liveOut[b] <= out
    && (forall i :: 0 <= i < n && q.g.succ[b][i] < |s.liveIn| ==> s.liveIn[q.g.succ[b][i]].Bits() <= out)
    && (forall v :: v in out ==> q.LiveOut(b, v))
  }

  /** The counters after block b's predecessors have been told of a change. */
  ghost predicate Notified(q: Problem, b: nat, n: nat, updates0: seq<nat>, updates1: seq<nat>)
    requires q.Valid() && q.g.Node(b) && n <= |q.g.pred[b]|
  {
    && |updates0| == |updates1| == |q.g.succ|
    && Sum(updates1) == Sum(updates0) + n
    && (forall x: nat :: x < |updates0| ==> updates0[x] <= updates1[x])
    && (forall x: nat :: x < |updates0| && x in q.g.pred[b][..n] ==> 0 < updates1[x])
    && (forall x: nat :: x < |updates0| && x !in q.g.pred[b] ==> updates1[x] == updates0[x])
  }

  /** One more predecessor p, the n-th, is told. */
  lemma NotifyOne(q: Problem, b: nat, n: nat, updates0: seq<nat>, updates1: seq<nat>)
    requires q.Valid() && q.g.Node(b) && n < |q.g.pred[b]| && Notified(q, b, n, updates0, updates1)
    ensures var p := q.g.pred[b][n];
      p < |updates1| && Notified(q, b, n + 1, updates0, updates1[p := updates1[p] + 1])
  {
    var p := q.g.pred[b][n];
    assert p in q.g.pred[b];
    SumUpdate(updates1, p, updates1[p] + 1);
    assert q.g.pred[b][..n + 1] == q.g.pred[b][..n] + [p];
  }

  /** One more live-in vector is right. */
  lemma InIsLive(q: Problem, b: nat, out: set<Local>)
    requires q.Valid() && q.g.Node(b) && forall v :: v in out ==> q.LiveOut(b, v)
    ensures forall v :: v in q.use[b] + (out - q.def[b]) ==> q.Live(b, v)
  {
    forall v | v in q.use[b] + (out - q.def[b]) ensures q.Live(b, v) {
      if v in q.use[b] {
        LiveHere(q, b, v);
      } else {
        var s: nat :| q.g.Edge(b, s) && q.Live(s, v);
        LiveThrough(q, b, s, v);
      }
    }
  }

  /** A visit that finds nothing new. */
  lemma Unchanged(q: Problem, s: State, b: nat, out: set<Local>)
    requires s.Inv(q) && b < |s.liveIn| && Joins(q, s, b, |q.g.succ[b]|, out)
    requires s.liveIn[b] == Present(q.use[b] + (out - q.def[b]))
    ensures s.(liveOut := s.liveOut[b := out], updates := s.updates[b := 0], pending := s.pending - s.updates[b]).Inv(q)
  {
    var s' := s.(liveOut := s.liveOut[b := out], updates := s.updates[b := 0], pending := s.pending - s.updates[b]);
    SumUpdate(s.updates, b, 0);
    forall x: nat | x < |s.liveIn| ensures s'.SoundAt(q, x) {
      assert s.SoundAt(q, x);
    }
    forall x: nat, y: nat | x < |s.liveIn| && y < |s.liveIn| && s.liveIn[x].Present? && s'.updates[x] == 0
      && q.g.Edge(x, y)
      ensures s.liveIn[y].Bits() <= s'.liveOut[x]
    {
      if x == b {
        var i :| 0 <= i < |q.g.succ[b]| && q.g.succ[b][i] == y;
      }
    }
  }

  /** A visit that changes the live-in vector of b, and tells b's predecessors. */
  lemma Changed(q: Problem, s: State, b: nat, out: set<Local>, updates1: seq<nat>)
    requires s.Inv(q) && b < |s.liveIn| && Joins(q, s, b, |q.g.succ[b]|, out)
    requires Notified(q, b, |q.g.pred[b]|, s.updates[b := 0], updates1)
    ensures State(s.liveIn[b := Present(q.use[b] + (out - q.def[b]))], s.liveOut[b := out], updates1,
              s.pending - s.updates[b] + |q.g.pred[b]|).Inv(q)
  {
    var s' := State(s.liveIn[b := Present(q.use[b] + (out - q.def[b]))], s.liveOut[b := out], updates1,
        s.pending - s.updates[b] + |q.g.pred[b]|);
    SumUpdate(s.updates, b, 0);
    InIsLive(q, b, out);
    forall x: nat | x < |s.liveIn| ensures s'.SoundAt(q, x) {
      assert s.SoundAt(q, x);
    }
    assert q.g.pred[b][..|q.g.pred[b]|] == q.g.pred[b];
    forall x: nat, y: nat | x < |s.liveIn| && y < |s.liveIn| && s'.liveIn[x].Present? && s'.updates[x] == 0
      && q.g.Edge(x, y)
      ensures s'.liveIn[y].Bits() <= s'.liveOut[x]
    {
      EdgeBothWays(q.g, x, y);
      assert y != b;
      if x == b {
        var i :| 0 <= i < |q.g.succ[b]| && q.g.succ[b][i] == y;
      }
    }
    forall x: nat | x < |updates1| && updates1[x] > 0 ensures q.g.succ[x] != [] {
      EdgeBothWays(q.g, x, b);
    }
  }

  ghost predicate Covers(q: Problem, universe: set<Local>)
    requires q.Valid()
  {
    forall b: nat :: b < |q.use| ==> q.use[b] <= universe
  }

  lemma LiveInUniverse(q: Problem, universe: set<Local>, b: nat, v: Local)
    requires q.Valid() && Covers(q, universe) && q.Live(b, v)
    ensures v in universe
  {
    var p :| q.LiveAlong(p, v) && p[0] == b;
  }

  /** A vector that grows leaves less to be added. */
  lemma Shrinks(q: Problem, s: State, s': State, universe: set<Local>, b: nat, bits: set<Local>)
    requires s.Shape(q) && Covers(q, universe) && b < |s.liveIn| && s'.liveIn == s.liveIn[b := Present(bits)]
    requires s.liveIn[b].Present? && s.liveIn[b].bits <= bits && s.liveIn[b].bits != bits
    requires forall v :: v in bits ==> q.Live(b, v)
    ensures s'.Remaining(universe) < s.Remaining(universe)
  {
    var v :| v in bits && v !in s.liveIn[b].bits;
    LiveInUniverse(q, universe, b, v);
    assert (b, v) in s.Remaining(universe) && (b, v) !in s'.Remaining(universe);
  }

  /** How a visit of a block that was visited before makes progress. */
  ghost predicate Progress(s: State, s': State, universe: set<Local>, b: nat)
    requires b < |s.updates|
  {
    || s'.Remaining(universe) < s.Remaining(universe)
    || (s'.Remaining(universe) == s.Remaining(universe) && s'.pending == s.pending - s.updates[b])
  }

  lemma UnchangedProgress(q: Problem, s: State, b: nat, out: set<Local>, universe: set<Local>)
    requires s.Inv(q) && b < |s.liveIn| && Joins(q, s, b, |q.g.succ[b]|, out)
    requires s.liveIn[b] == Present(q.use[b] + (out - q.def[b]))
    ensures var s' := s.(liveOut := s.liveOut[b := out], updates := s.updates[b := 0],
      pending := s.pending - s.updates[b]);
      s'.Inv(q) && Progress(s, s', universe, b)
  {
    Unchanged(q, s, b, out);
    var s' := s.(liveOut := s.liveOut[b := out], updates := s.updates[b := 0], pending := s.pending - s.updates[b]);
    assert s'.Remaining(universe) == s.Remaining(universe);
  }

  lemma ChangedProgress(q: Problem, s: State, b: nat, out: set<Local>, updates1: seq<nat>, universe: set<Local>)
    requires s.Inv(q) && b < |s.liveIn| && Joins(q, s, b, |q.g.succ[b]|, out) && Covers(q, universe)
    requires Notified(q, b, |q.g.pred[b]|, s.updates[b := 0], updates1)
    requires s.liveIn[b] != Present(q.use[b] + (out - q.def[b]))
    ensures var s' := State(s.liveIn[b := Present(q.use[b] + (out - q.def[b]))], s.liveOut[b := out], updates1,
      s.pending - s.updates[b] + |q.g.pred[b]|);
      s'.Inv(q) && (s.liveIn[b].Present? ==> Progress(s, s', universe, b))
  {
    Changed(q, s, b, out, updates1);
    InIsLive(q, b, out);
    var s' := State(s.liveIn[b := Present(q.use[b] + (out - q.def[b]))], s.liveOut[b := out], updates1,
      s.pending - s.updates[b] + |q.g.pred[b]|);
    if s.liveIn[b].Present? {
      Shrinks(q, s, s', universe, b, q.use[b] + (out - q.def[b]));
    }
  }

  /** The vectors of one storage class. */
  class LiveVars {
    const q: Problem
    ghost const universe: set<Local>
    var liveIn: seq<Vector>
    var liveOut: seq<set<Local>>
    var updates: seq<nat>        // per block: successors that have changed since its last visit
    var pending: int             // updates outstanding in all blocks

    ghost function Snap(): State
      reads this
    {
      State(liveIn, liveOut, updates, pending)
    }

    /** What holds between visits; without locals of the class there is nothing to do. */
    ghost predicate Ok(num: nat)
      reads this
    {
      && Snap().Inv(q) && Covers(q, universe)
      && (num == 0 ==> forall b: nat :: b < |updates| ==> updates[b] == 0)
    }

    /** If the class has locals, the blocks from b on have been visited. */
    ghost predicate VisitedFrom(b: nat, num: nat)
      reads this
    {
      num > 0 ==> forall x: nat :: b <= x < |liveIn| ==> liveIn[x].Present?
    }

    ghost predicate UnvisitedBelow(b: nat)
      reads this
    {
      forall x: nat :: x < b && x < |liveIn| ==> liveIn[x].Absent?
    }

    constructor (q: Problem, ghost universe: set<Local>)
      requires q.Valid() && Covers(q, universe)
      ensures this.q == q && this.universe == universe && Snap().Inv(q)
      ensures forall b: nat :: b < |liveIn| ==> liveIn[b].Absent? && updates[b] == 0
    {
      this.q, this.universe := q, universe;
      liveIn := seq(|q.g.succ|, _ => Absent);
      liveOut := seq(|q.g.succ|, _ => {});
      updates := seq(|q.g.succ|, _ => 0);
      pending := 0;
      SumZero(seq(|q.g.succ|, _ => 0));
    }

    /** The live-out vector of b joined with the live-in vectors of its successors. */
    method Join(b: nat) returns (out: set<Local>)
      requires Snap().Inv(q) && b < |liveIn|
      ensures Joins(q, Snap(), b, |q.g.succ[b]|, out)
    {
      assert Snap().SoundAt(q, b);
      out := liveOut[b];
      for i := 0 to |q.g.succ[b]|
        invariant Joins(q, Snap(), b, i, out)
      {
        var n := q.g.succ[b][i];
        assert q.g.Edge(b, n) && Snap().SoundAt(q, n);
        if liveIn[n].Present? {
          out := out + liveIn[n].bits;
        }
      }
    }

    /** Count one update for every predecessor of b. */
    method Notify(b: nat)
      requires q.Valid() && q.g.Node(b) && |updates| == |q.g.succ|
      modifies this`updates, this`pending
      ensures Notified(q, b, |q.g.pred[b]|, old(updates), updates)
      ensures pending == old(pending) + |q.g.pred[b]|
    {
      for i := 0 to |q.g.pred[b]|
        invariant Notified(q, b, i, old(updates), updates) && pending == old(pending)
      {
        var p := q.g.pred[b][i];
        NotifyOne(q, b, i, old(updates), updates);
        updates := updates[p := updates[p] + 1];
      }
      pending := pending + |q.g.pred[b]|;
    }

    /** Recompute the vectors of a block with successors. */
    method Recompute(b: nat)
      requires Snap().Inv(q) && Covers(q, universe) && b < |liveIn|
      modifies this`liveIn, this`liveOut, this`updates, this`pending
      ensures Snap().Inv(q) && liveIn == old(liveIn)[b := liveIn[b]] && liveIn[b].Present?
      ensures old(liveIn)[b].Present? ==> Progress(old(Snap()), Snap(), universe, b)
    {
      var out := Join(b);
      Store(b, out);
    }

    /** The second half of Recompute: store the vectors, and tell the predecessors of a change. */
    method Store(b: nat, out: set<Local>)
      requires Snap().Inv(q) && Covers(q, universe) && b < |liveIn| && Joins(q, Snap(), b, |q.g.succ[b]|, out)
      modifies this`liveIn, this`liveOut, this`updates, this`pending
      ensures Snap().Inv(q) && liveIn == old(liveIn)[b := liveIn[b]] && liveIn[b].Present?
      ensures old(liveIn)[b].Present? ==> Progress(old(Snap()), Snap(), universe, b)
    {
      ghost var s := Snap();
      StoreOut(b, out);
      var bits := q.use[b] + (out - q.def[b]);
      if liveIn[b] == Present(bits) {
        UnchangedProgress(q, s, b, out, universe);
      } else {
        liveIn := liveIn[b := Present(bits)];
        Notify(b);
        ChangedProgress(q, s, b, out, updates, universe);
      }
    }

    /** Store the live-out vector. The block is up to date with its successors. */
    method StoreOut(b: nat, out: set<Local>)
      requires b < |liveOut| && b < |updates|
      modifies this`liveOut, this`updates, this`pending
      ensures liveOut == old(liveOut)[b := out]
      ensures updates == old(updates)[b := 0] && pending == old(pending) - old(updates)[b]
    {
      if liveOut[b] != out {
        liveOut := liveOut[b := out];
      }
      pending := pending - updates[b];
      updates := updates[b := 0];
    }

    /** A block without successors: what it uses is live. */
    method Sink(b: nat)
      requires Snap().Inv(q) && Covers(q, universe) && b < |liveIn| && q.g.succ[b] == [] && liveIn[b].Absent?
      modifies this`liveIn, this`updates, this`pending
      ensures Snap().Inv(q) && liveIn == old(liveIn)[b := liveIn[b]] && liveIn[b].Present?
    {
      ghost var s := Snap();
      assert s.SoundAt(q, b) && liveOut[b] == {};
      assert updates[b] == 0;
      liveIn := liveIn[b := Present(q.use[b])];
      Notify(b);
      assert s.updates[b := 0] == s.updates && s.liveOut[b := {}] == s.liveOut;
      assert q.use[b] + ({} - q.def[b]) == q.use[b];
      Changed(q, s, b, {}, updates);
    }

    /** The first visit of a block without successors, for a class of num locals. */
    method VisitSink(b: nat, num: nat)
      requires Ok(num) && VisitedFrom(b + 1, num) && UnvisitedBelow(b + 1) && b < |liveIn| && q.g.succ[b] == []
      modifies this`liveIn, this`updates, this`pending
      ensures Ok(num) && VisitedFrom(b, num) && UnvisitedBelow(b)
    {
      if num > 0 {
        Sink(b);
      }
    }

    /** The first visit of any other block. */
    method VisitFirst(b: nat, num: nat)
      requires Ok(num) && VisitedFrom(b + 1, num) && UnvisitedBelow(b + 1) && b < |liveIn|
      modifies this`liveIn, this`liveOut, this`updates, this`pending
      ensures Ok(num) && VisitedFrom(b, num) && UnvisitedBelow(b)
    {
      if num > 0 {
        Recompute(b);
      }
    }

    /** Another visit, if a successor has changed. */
    method VisitAgain(b: nat, num: nat)
      requires Ok(num) && VisitedFrom(0, num) && b < |liveIn|
      modifies this`liveIn, this`liveOut, this`updates, this`pending
      ensures Ok(num) && VisitedFrom(0, num)
      ensures if old(updates)[b] > 0 then Progress(old(Snap()), Snap(), universe, b) else Snap() == old(Snap())
    {
      if num > 0 && updates[b] > 0 {
        Recompute(b);
      }
    }
  }

  /** Live variables of both storage classes. */
  class FlowLiveness {
    const ints: LiveVars
    const floats: LiveVars
    const numI: nat             // integer locals
    const numF: nat             // floating-point locals

    constructor (ints: LiveVars, floats: LiveVars, numI: nat, numF: nat)
      ensures this.ints == ints && this.floats == floats && this.numI == numI && this.numF == numF
    {
      this.ints, this.floats, this.numI, this.numF := ints, floats, numI, numF;
    }

    ghost predicate Valid()
      reads ints, floats
    {
      ints != floats && ints.q.g == floats.q.g && ints.Ok(numI) && floats.Ok(numF)
    }

    /** The blocks from b on have been visited. */
    ghost predicate VisitedFrom(b: nat)
      reads ints, floats
    {
      ints.VisitedFrom(b, numI) && floats.VisitedFrom(b, numF)
    }

    ghost predicate UnvisitedBelow(b: nat)
      reads ints, floats
    {
      ints.UnvisitedBelow(b) && floats.UnvisitedBelow(b)
    }

    /** Visit block b: every block once by force, and then whenever a successor has changed. */
    method Relax(b: nat, force: bool)
      requires Valid() && ints.q.g.Node(b)
      requires force ==> VisitedFrom(b + 1) && UnvisitedBelow(b + 1)
      requires !force ==> VisitedFrom(0) && ints.updates[b] + floats.updates[b] > 0
      modifies ints`liveIn, ints`liveOut, ints`updates, ints`pending
      modifies floats`liveIn, floats`liveOut, floats`updates, floats`pending
      ensures Valid()
      ensures force ==> VisitedFrom(b) && UnvisitedBelow(b)
      ensures !force ==> VisitedFrom(0)
      ensures !force ==>
        Less(old(ints.Snap()), old(floats.Snap()), ints.universe, floats.universe, ints.Snap(), floats.Snap())
    {
      if |ints.q.g.succ[b]| == 0 {
        assert force by {
          SinksAreQuiet(ints.q, ints.Snap(), b);
          SinksAreQuiet(floats.q, floats.Snap(), b);
        }
        ints.VisitSink(b, numI);
        floats.VisitSink(b, numF);
      } else if force {
        ints.VisitFirst(b, numI);
        floats.VisitFirst(b, numF);
      } else {
        ghost var i0, f0 := ints.Snap(), floats.Snap();
        ints.VisitAgain(b, numI);
        floats.VisitAgain(b, numF);
        ProgressIsLess(i0, f0, ints.universe, floats.universe, ints.Snap(), floats.Snap(), b);
      }
    }

    /** One pass over the blocks, from the last to the first. */
    method Sweep()
      requires Valid() && VisitedFrom(0)
      modifies ints`liveIn, ints`liveOut, ints`updates, ints`pending
      modifies floats`liveIn, floats`liveOut, floats`updates, floats`pending
      ensures Valid() && VisitedFrom(0)
      ensures Less(old(ints.Snap()), old(floats.Snap()), ints.universe, floats.universe, ints.Snap(), floats.Snap())
        || (ints.pending == 0 && floats.pending == 0)
    {
      ghost var i0, f0, changed := ints.Snap(), floats.Snap(), false;
      var b := |ints.q.g.succ|;
      while b > 0
        invariant b <= |ints.q.g.succ| && Valid() && VisitedFrom(0)
        invariant changed ==> Less(i0, f0, ints.universe, floats.universe, ints.Snap(), floats.Snap())
        invariant !changed ==> ints.Snap() == i0 && floats.Snap() == f0
        invariant !changed ==> forall x: nat ::
          b <= x < |ints.q.g.succ| ==> ints.updates[x] == 0 && floats.updates[x] == 0
      {
        b := b - 1;
        if ints.updates[b] > 0 || floats.updates[b] > 0 {
          ghost var i1, f1 := ints.Snap(), floats.Snap();
          Relax(b, false);
          if changed {
            LessTransitive(i0, f0, ints.universe, floats.universe, i1, f1, ints.Snap(), floats.Snap());
          }
          changed := true;
        }
      }
      if !changed {
        SumZero(ints.updates);
        SumZero(floats.updates);
      }
    }

    /** Solve the equations: the vectors are exactly the live variables. */
    method Solve()
      requires Valid() && VisitedFrom(|ints.q.g.succ|) && UnvisitedBelow(|ints.q.g.succ|)
      modifies ints`liveIn, ints`liveOut, ints`updates, ints`pending
      modifies floats`liveIn, floats`liveOut, floats`updates, floats`pending
      ensures Valid() && VisitedFrom(0)
      ensures numI > 0 ==> Exact(ints.q, ints.Snap())
      ensures numF > 0 ==> Exact(floats.q, floats.Snap())
    {
      var b: nat := |ints.q.g.succ|;
      while b > 0
        invariant b <= |ints.q.g.succ| && Valid() && VisitedFrom(b) && UnvisitedBelow(b)
      {
        b := b - 1;
        Relax(b, true);
      }
      while true
        invariant Valid() && VisitedFrom(0)
        decreases ints.Snap().Remaining(ints.universe), floats.Snap().Remaining(floats.universe),
          ints.pending + floats.pending
      {
        Sweep();
        if ints.pending == 0 && floats.pending == 0 {
          break;
        }
      }
      if numI > 0 {
        QuietIsExact(ints.q, ints.Snap());
      }
      if numF > 0 {
        QuietIsExact(floats.q, floats.Snap());
      }
    }
  }

  /** Nobody counts updates for a block without successors. */
  lemma SinksAreQuiet(q: Problem, s: State, b: nat)
    requires s.Inv(q) && b < |s.updates| && q.g.succ[b] == []
    ensures s.updates[b] == 0
  {
  }

  /** The states have come closer to a solution. */
  ghost predicate Less(i0: State, f0: State, ui: set<Local>, uf: set<Local>, i1: State, f1: State) {
    var (ri0, rf0, ri1, rf1) := (i0.Remaining(ui), f0.Remaining(uf), i1.Remaining(ui), f1.Remaining(uf));
    ri1 < ri0 || (ri1 == ri0 && (rf1 < rf0 || (rf1 == rf0 && i1.pending + f1.pending < i0.pending + f0.pending)))
  }

  /** A visit in which at least one class has something to take in comes closer to a solution. */
  lemma ProgressIsLess(i0: State, f0: State, ui: set<Local>, uf: set<Local>, i1: State, f1: State, b: nat)
    requires b < |i0.updates| && b < |f0.updates|
    requires i0.updates[b] > 0 || f0.updates[b] > 0
    requires if i0.updates[b] > 0 then Progress(i0, i1, ui, b) else i1 == i0
    requires if f0.updates[b] > 0 then Progress(f0, f1, uf, b) else f1 == f0
    ensures Less(i0, f0, ui, uf, i1, f1)
  {
  }

  lemma LessTransitive(i0: State, f0: State, ui: set<Local>, uf: set<Local>, i1: State, f1: State, i2: State, f2: State)
    requires Less(i0, f0, ui, uf, i1, f1) && Less(i1, f1, ui, uf, i2, f2)
    ensures Less(i0, f0, ui, uf, i2, f2)
  {
  }

  /** The vectors hold exactly the variables that are live along some path. */
  ghost predicate Exact(q: Problem, s: State)
    requires s.Shape(q)
  {
    forall b: nat :: b < |s.liveIn| ==>
      && s.liveIn[b].Present?
      && (forall v :: v in s.liveIn[b].bits <==> q.Live(b, v))
      && (forall v :: v in s.liveOut[b] <==> q.LiveOut(b, v))
  }

  /** With every counter at zero the vectors are a solution, hence the least one. */
  lemma QuietIsExact(q: Problem, s: State)
    requires s.Inv(q) && s.pending == 0 && forall b: nat :: b < |s.liveIn| ==> s.liveIn[b].Present?
    ensures Exact(q, s)
  {
    SumZero(s.updates);
    var live := seq(|s.liveIn|, b requires 0 <= b < |s.liveIn| => s.liveIn[b].Bits());
    forall b: nat, x: nat | b < |live| && q.g.Edge(b, x) && x < |live| ensures live[x] - q.def[b] <= live[b] {
      assert s.liveIn[x].Bits() <= s.liveOut[b];
    }
    assert q.Closed(live);
    LivenessIsLeast(q, live);
    forall b: nat | b < |s.liveIn|
      ensures (forall v :: v in s.liveIn[b].bits <==> q.Live(b, v))
        && (forall v :: v in s.liveOut[b] <==> q.LiveOut(b, v)) {
      assert s.SoundAt(q, b);
      forall v | q.LiveOut(b, v) ensures v in s.liveOut[b] {
        var x: nat :| q.g.Edge(b, x) && q.Live(x, v);
        assert v in live[x];
      }
    }
  }
}
