/** Basic blocks and the flow graph of an instruction stream. */
module FlowGraph {
  import opened Graphs
  import opened Icode

  /** The stream ends in a return, and every branch target is defined exactly once. */
  ghost predicate WellFormed(code: seq<Insn>) {
    && 0 < |code| && code[|code| - 1].Ret?
    && (forall i, j :: 0 <= i < |code| && 0 <= j < |code| && code[i].Label? && code[i] == code[j] ==> i == j)
    && (forall i :: 0 <= i < |code| && (code[i].Branch? || code[i].Goto?) ==> Defined(code, code[i].target))
  }

  ghost predicate Defined(code: seq<Insn>, l: nat) {
    exists i :: 0 <= i < |code| && code[i] == Label(l)
  }

  /** The variables read before any write, and those written before any read, in code[lo..hi]. */
  datatype Summary = Summary(use: set<Local>, def: set<Local>)

  /** The effect of one instruction: a bit is set in one vector unless it is in the other. */
  function Mark(s: Summary, insn: Insn): Summary {
    var use := s.use + (insn.Uses() - s.def);
    Summary(use, s.def + (insn.Defs() - use))
  }

  function Summarize(code: seq<Insn>, lo: nat, hi: nat): Summary
    requires lo <= hi <= |code|
    decreases hi - lo
  {
    if lo == hi then Summary({}, {}) else Mark(Summarize(code, lo, hi - 1), code[hi - 1])
  }

  /** code[lo..hi] has no transfer of control, and no label except at lo. */
  ghost predicate Straight(code: seq<Insn>, lo: nat, hi: nat) {
    forall pc: nat :: lo <= pc < hi && pc < |code| ==> !code[pc].EndsBlock() && (code[pc].Label? ==> pc == lo)
  }

  /** Blocks h[k]..t[k] partition the code; they are as long as labels and transfers allow. `open`
      blocks have been started but not finished. */
  ghost predicate Layout(code: seq<Insn>, h: seq<nat>, t: seq<nat>) {
    && |t| <= |h| <= |t| + 1 && 0 < |h| && h[0] == 0
    && (forall k: nat {:trigger BlockAt(code, h, t, k)} :: k < |t| ==> BlockAt(code, h, t, k))
  }

  ghost predicate BlockAt(code: seq<Insn>, h: seq<nat>, t: seq<nat>, k: nat)
    requires k < |t| <= |h|
  {
    && h[k] <= t[k] < |code|
    && Straight(code, h[k], t[k])
    && (code[t[k]].Label? ==> t[k] == h[k])
    && (k + 1 < |h| ==> h[k + 1] == t[k] + 1 < |code| && (code[t[k]].EndsBlock() || code[h[k + 1]].Label?))
  }

  /** Labels met before cp are mapped to the blocks they head. */
  ghost predicate Labels(code: seq<Insn>, cp: nat, h: seq<nat>, lbl2bb: map<nat, nat>) {
    && (forall l :: l in lbl2bb ==>
          lbl2bb[l] < |h| && h[lbl2bb[l]] < cp && h[lbl2bb[l]] < |code| && code[h[lbl2bb[l]]] == Label(l))
    && (forall pc: nat :: pc < cp && pc < |code| && code[pc].Label? ==> code[pc].name in lbl2bb)
  }

  function Fall(code: seq<Insn>, t: seq<nat>, k: nat): seq<nat>
    requires k < |t| && t[k] < |code|
  {
    if code[t[k]].FallsThrough() then [k + 1] else []
  }

  /** The successors of a finished block: those of its last instruction, except a target that waits
      in the list of forward references. */
  ghost predicate EdgesOf(code: seq<Insn>, t: seq<nat>, succ: seq<nat>, waits: bool, lbl2bb: map<nat, nat>, k: nat)
    requires k < |t| && t[k] < |code|
  {
    var fall := Fall(code, t, k);
    if waits || !code[t[k]].Jumps() then
      succ == fall && (waits ==> code[t[k]].Jumps())
    else
      code[t[k]].target in lbl2bb && TargetFirstOrLast(succ, lbl2bb[code[t[k]].target], fall)
  }

  /** A backward branch is linked before the fall-through, a forward one after it. */
  predicate TargetFirstOrLast(succ: seq<nat>, s: nat, fall: seq<nat>) {
    succ == [s] + fall || succ == fall + [s]
  }

  /** Branches to labels not met yet: the block, and the label. */
  ghost predicate Waits(fwd: seq<(nat, nat)>, k: nat) {
    exists i :: 0 <= i < |fwd| && fwd[i].0 == k
  }

  ghost predicate Forward(code: seq<Insn>, t: seq<nat>, fwd: seq<(nat, nat)>) {
    && (forall i :: 0 <= i < |fwd| ==>
          fwd[i].0 < |t| && t[fwd[i].0] < |code| && code[t[fwd[i].0]].Jumps() && code[t[fwd[i].0]].target == fwd[i].1)
    && (forall i, j :: 0 <= i < j < |fwd| ==> fwd[i].0 < fwd[j].0)
  }

  ghost predicate Edges(code: seq<Insn>, t: seq<nat>, g: Graph, fwd: seq<(nat, nat)>, lbl2bb: map<nat, nat>) {
    && |t| <= |g.succ| && g.Valid() && Forward(code, t, fwd)
    && (forall k: nat {:trigger Waits(fwd, k)} ::
          k < |t| ==> t[k] < |code| && EdgesOf(code, t, g.succ[k], Waits(fwd, k), lbl2bb, k))
    && (forall k: nat :: |t| <= k < |g.succ| ==> g.succ[k] == [])
  }

  /** The result: blocks, edges, summaries. */
  datatype Flow = Flow(h: seq<nat>, t: seq<nat>, g: Graph, sum: seq<Summary>) {

    /** The blocks partition the code into maximal straight runs; successors are exactly the
        fall-through and the block of the branch target; predecessors are their inverse; and the
        summaries are those of the blocks' instructions. */
    ghost predicate Of(code: seq<Insn>) {
      && |h| == |t| == |g.succ| == |sum| && 0 < |t| && t[|t| - 1] == |code| - 1
      && Layout(code, h, t)
      && g.Valid()
      && (forall k: nat {:trigger SuccExact(code, k)} :: k < |t| ==> SuccExact(code, k))
      && (forall k: nat {:trigger SummaryAt(code, h, t, sum, k)} :: k < |t| ==> SummaryAt(code, h, t, sum, k))
    }

    ghost predicate SuccExact(code: seq<Insn>, k: nat)
      requires |h| == |t| == |g.succ| && k < |t|
    {
      && t[k] < |code|
      && if code[t[k]].Jumps() then exists s: nat ::
         s < |h| && Heads(code, s, code[t[k]].target) && TargetFirstOrLast(g.succ[k], s, Fall(code, t, k))
         else g.succ[k] == Fall(code, t, k)
    }

    /** Block s starts with label l. */
    ghost predicate Heads(code: seq<Insn>, s: nat, l: nat) {
      s < |h| && h[s] < |code| && code[h[s]] == Label(l)
    }
  }

  /** Adding an edge at the ends of both lists keeps the lists inverse. */
  lemma LinkKeepsInverse(g: Graph, p: nat, s: nat)
    requires g.Valid() && g.Node(p) && g.Node(s)
    ensures Graph(g.succ[p := g.succ[p] + [s]], g.pred[s := g.pred[s] + [p]]).Valid()
  {
    var g' := Graph(g.succ[p := g.succ[p] + [s]], g.pred[s := g.pred[s] + [p]]);
    forall u: nat, v: nat | u < |g.succ| && v < |g.succ| ensures multiset(g'.succ[u])[v] == multiset(g'.pred[v])[u] {
      assert multiset(g.succ[u])[v] == multiset(g.pred[v])[u];
    }
  }

  /** A new block has no edges. */
  lemma NewBlockKeepsInverse(g: Graph)
    requires g.Valid()
    ensures Graph(g.succ + [[]], g.pred + [[]]).Valid()
  {
    var g' := Graph(g.succ + [[]], g.pred + [[]]);
    var n := |g.succ|;
    forall u: nat, v: nat | u < |g'.succ| && v < |g'.succ| ensures multiset(g'.succ[u])[v] == multiset(g'.pred[v])[u] {
      if u < n && v < n {
        assert multiset(g.succ[u])[v] == multiset(g.pred[v])[u];
      } else if u < n {
        assert v !in g.succ[u];
      } else if v < n {
        assert u !in g.pred[v];
      }
    }
  }

  /** Summaries of all blocks; the open block is summarized up to cp. */
  ghost predicate Summaries(code: seq<Insn>, cp: nat, h: seq<nat>, t: seq<nat>, sum: seq<Summary>) {
    && |sum| == |h| && |t| <= |h|
    && (forall k: nat {:trigger SummaryAt(code, h, t, sum, k)} :: k < |t| ==> SummaryAt(code, h, t, sum, k))
    && (|t| < |h| ==> h[|t|] <= cp <= |code| && sum[|t|] == Summarize(code, h[|t|], cp))
  }

  ghost predicate SummaryAt(code: seq<Insn>, h: seq<nat>, t: seq<nat>, sum: seq<Summary>, k: nat)
    requires k < |t| <= |h| == |sum|
  {
    h[k] <= t[k] < |code| && sum[k] == Summarize(code, h[k], t[k] + 1)
  }

  function TakesAddress(insn: Insn): set<Local> {
    if insn.Lea? then insn.Uses() else {}
  }

  /** The locals whose address is taken before cp. */
  function AddressTaken(code: seq<Insn>, cp: nat): set<Local>
    requires cp <= |code|
  {
    if cp == 0 then {} else AddressTaken(code, cp - 1) + TakesAddress(code[cp - 1])
  }

  class Builder {
    const code: seq<Insn>
    var h: seq<nat>                  // first instruction of each block
    var t: seq<nat>                  // last instruction of each finished block
    var g: Graph                     // successor and predecessor lists
    var sum: seq<Summary>            // use and def vectors
    var lbl2bb: map<nat, nat>
    var fwd: seq<(nat, nat)>         // forward references to resolve
    var onStack: set<Local>          // locals whose address is taken

    constructor (code: seq<Insn>)
      ensures this.code == code && Open(0) && onStack == {}
    {
      this.code := code;
      h, t, g, sum, lbl2bb, fwd, onStack := [0], [], Graph([[]], [[]]), [Summary({}, {})], map[], [], {};
    }

    /** Between instructions: the last block is open and ends before cp. */
    ghost predicate Open(cp: nat)
      reads this
    {
      && |g.succ| == |h| == |t| + 1 && cp <= |code|
      && Layout(code, h, t) && h[|t|] <= cp && Straight(code, h[|t|], cp)
      && Labels(code, cp, h, lbl2bb)
      && Edges(code, t, g, fwd, lbl2bb)
      && Summaries(code, cp, h, t, sum)
    }

    /** Make p a predecessor of s. */
    method LinkBlocks(p: nat, s: nat)
      requires g.Valid() && g.Node(p) && g.Node(s)
      modifies this`g
      ensures g == Graph(old(g).succ[p := old(g).succ[p] + [s]], old(g).pred[s := old(g).pred[s] + [p]]) && g.Valid()
    {
      LinkKeepsInverse(g, p, s);
      g := Graph(g.succ[p := g.succ[p] + [s]], g.pred[s := g.pred[s] + [p]]);
    }

    /** Link block b to the block labelled l, now or when the label turns up. */
    method LinkLabel(b: nat, l: nat)
      requires g.Valid() && g.Node(b) && (l in lbl2bb ==> g.Node(lbl2bb[l]))
      modifies this`g, this`fwd
      ensures g.Valid() && |g.succ| == |old(g).succ|
      ensures l in lbl2bb ==> fwd == old(fwd) && g.succ == old(g).succ[b := old(g).succ[b] + [lbl2bb[l]]]
      ensures l !in lbl2bb ==> fwd == old(fwd) + [(b, l)] && g == old(g)
    {
      if l !in lbl2bb {
        fwd := fwd + [(b, l)];
      } else {
        LinkBlocks(b, lbl2bb[l]);
      }
    }

    /** Finish the open block at cp and, if there is more code, start the next one. */
    method Finalize(cp: nat, link: bool)
      requires g.Valid() && |g.succ| == |h| == |t| + 1 == |sum|
      modifies this`h, this`t, this`g, this`sum
      ensures t == old(t) + [cp] && g.Valid() && |g.succ| == |h| == |sum|
      ensures cp + 1 < |code| ==> h == old(h) + [cp + 1] && sum == old(sum) + [Summary({}, {})]
      ensures cp + 1 < |code| ==> var b := |old(t)|;
        g.succ == (if link then old(g).succ[b := old(g).succ[b] + [b + 1]] else old(g).succ) + [[]]
      ensures cp + 1 >= |code| ==> h == old(h) && g == old(g) && sum == old(sum)
    {
      var b := |t|;
      t := t + [cp];
      if cp + 1 < |code| {
        NewBlockKeepsInverse(g);
        h := h + [cp + 1];
        sum := sum + [Summary({}, {})];
        g := Graph(g.succ + [[]], g.pred + [[]]);
        if link {
          LinkBlocks(b, b + 1);
        }
      }
    }

    /** Enter an instruction's operands into the open block's vectors. */
    method MarkOperands(insn: Insn)
      requires 0 < |sum|
      modifies this`sum
      ensures sum == old(sum)[|old(sum)| - 1 := Mark(old(sum)[|old(sum)| - 1], insn)]
    {
      var b := |sum| - 1;
      var use, def := sum[b].use, sum[b].def;
      var operands := insn.Reads();
      for i := 0 to |operands|
        invariant use == sum[b].use + ((set v | v in operands[..i] && v != Special) - def)
      {
        assert operands[..i + 1] == operands[..i] + [operands[i]];
        if operands[i] != Special && operands[i] !in def {
          use := use + {operands[i]};
        }
      }
      assert operands[..|operands|] == operands;
      assert use == sum[b].use + (insn.Uses() - sum[b].def);
      var v := insn.Writes();
      if v != Special && v !in use {
        def := def + {v};
      }
      assert def == sum[b].def + (insn.Defs() - use);
      sum := sum[b := Summary(use, def)];
    }

    /** All blocks are finished. */
    ghost predicate Closed()
      reads this
    {
      && |g.succ| == |h| == |t|
      && Layout(code, h, t) && t[|t| - 1] == |code| - 1
      && Labels(code, |code|, h, lbl2bb)
      && Edges(code, t, g, fwd, lbl2bb)
      && Summaries(code, |code|, h, t, sum)
    }

    /** An instruction that leaves the block open. */
    method StepStraight(cp: nat)
      requires Open(cp) && cp < |code| && !code[cp].EndsBlock() && !code[cp].Label?
      modifies this`sum, this`onStack
      ensures Open(cp + 1)
      ensures onStack == old(onStack) + TakesAddress(code[cp])
    {
      if code[cp].Lea? && code[cp].src != Special {
        onStack := onStack + {code[cp].src};
      }
      MarkOperands(code[cp]);
      forall k: nat | k < |t| ensures SummaryAt(code, h, t, sum, k) {
        assert SummaryAt(code, h, t, old(sum), k);
      }
    }

    /** A label: it starts a block, unless it already heads the open one. */
    method StepLabel(cp: nat)
      requires WellFormed(code) && Open(cp) && cp < |code| && code[cp].Label?
      modifies this`h, this`t, this`g, this`sum, this`lbl2bb
      ensures Open(cp + 1)
    {
      if cp > h[|t|] {
        Split(cp);
      }
      LabelSeen(code, cp, h, t, g, fwd, lbl2bb);
      SummaryOfLabel(code, cp, h, t, sum);
      lbl2bb := lbl2bb[code[cp].name := |t|];
    }

    /** Finish the open block before the label at cp. */
    method Split(cp: nat)
      requires Open(cp) && cp < |code| && code[cp].Label? && cp > h[|t|]
      modifies this`h, this`t, this`g, this`sum
      ensures Open(cp) && h[|t|] == cp
    {
      ghost var h0, t0, g0, sum0 := h, t, g, sum;
      Finalize(cp - 1, true);
      SplitLayout(code, cp, h0, t0, h, t);
      SplitSummaries(code, cp, h0, t0, sum0, h, t, sum);
      SplitEdges(code, cp, h0, t0, g0, fwd, g, lbl2bb);
    }

    /** An instruction that transfers control: it ends the block. */
    method StepTransfer(cp: nat)
      requires WellFormed(code) && Open(cp) && cp < |code| && code[cp].EndsBlock()
      modifies this`h, this`t, this`g, this`sum, this`fwd
      ensures cp + 1 < |code| ==> Open(cp + 1)
      ensures cp + 1 == |code| ==> Closed()
    {
      MarkOperands(code[cp]);
      ghost var h0, t0, g0, fwd0 := h, t, g, fwd;
      EndBlock(cp);
      LabelsGrow(code, cp, h0, h, lbl2bb);
      LayoutGrows(code, cp, h0, t0, h, t);
      EdgesGrow(code, cp, t0, g0, fwd0, t, g, fwd, lbl2bb);
      SummariesGrow(code, cp, h0, t0, old(sum), h, t, sum);
    }

    /** Link the open block to the target of the transfer at cp, if it has one, and finish it. */
    method EndBlock(cp: nat)
      requires g.Valid() && |g.succ| == |h| == |t| + 1 == |sum| && cp < |code|
      requires code[cp].Jumps() && code[cp].target in lbl2bb ==> lbl2bb[code[cp].target] < |h|
      requires g.succ[|t|] == [] && (cp + 1 == |code| ==> code[cp].Ret?)
      modifies this`h, this`t, this`g, this`sum, this`fwd
      ensures t == old(t) + [cp] && g.Valid() && |g.succ| == |h| == |sum|
      ensures h == if cp + 1 < |code| then old(h) + [cp + 1] else old(h)
      ensures sum == if cp + 1 < |code| then old(sum) + [Summary({}, {})] else old(sum)
      ensures forall k: nat :: k < |old(t)| ==> g.succ[k] == old(g).succ[k]
      ensures forall k: nat :: |t| <= k < |g.succ| ==> g.succ[k] == []
      ensures fwd == if code[cp].Jumps() && code[cp].target !in lbl2bb then old(fwd) + [(|old(t)|, code[cp].target)]
        else old(fwd)
      ensures g.succ[|old(t)|] ==
        (if code[cp].Jumps() && code[cp].target in lbl2bb then [lbl2bb[code[cp].target]] else []) +
          Fall(code, t, |old(t)|)
    {
      if code[cp].Jumps() {
        LinkLabel(|t|, code[cp].target);
      }
      Finalize(cp, code[cp].FallsThrough());
    }

    /** Add the edges of the forward references. */
    method Resolve()
      requires WellFormed(code) && Closed()
      modifies this`g, this`fwd
      ensures Closed() && fwd == []
    {
      var pending := fwd;
      for i := 0 to |pending|
        invariant fwd == pending[i..] && Closed()
      {
        assert pending[i..][0] == pending[i] && pending[i..][1..] == pending[i + 1..];
        ResolveOne();
      }
    }

    method ResolveOne()
      requires WellFormed(code) && Closed() && 0 < |fwd|
      modifies this`g, this`fwd
      ensures Closed() && fwd == old(fwd)[1..]
    {
      var k, l := fwd[0].0, fwd[0].1;
      ghost var g0, fwd0 := g, fwd;
      assert Defined(code, l);
      assert Waits(fwd, k) && EdgesOf(code, t, g.succ[k], true, lbl2bb, k);
      LinkBlocks(k, lbl2bb[l]);
      fwd := fwd[1..];
      ReferenceResolved(code, t, g0, fwd0, lbl2bb, g);
    }

    /** One instruction. */
    method Step(cp: nat)
      requires WellFormed(code) && Open(cp) && cp < |code|
      modifies this
      ensures if cp + 1 < |code| then Open(cp + 1) else Closed()
      ensures onStack == old(onStack) + TakesAddress(code[cp])
    {
      if code[cp].Label? {
        StepLabel(cp);
      } else if code[cp].EndsBlock() {
        StepTransfer(cp);
      } else {
        StepStraight(cp);
      }
    }

    method Build() returns (f: Flow)
      requires WellFormed(code) && Open(0) && onStack == {}
      modifies this
      ensures f.Of(code)
      ensures onStack == AddressTaken(code, |code|)
    {
      ReadAll();
      f := Finish();
    }

    /** The instructions before cp have been read. */
    ghost predicate Reading(cp: nat)
      reads this
    {
      if cp < |code| then Open(cp) && onStack == AddressTaken(code, cp)
      else Closed() && onStack == AddressTaken(code, |code|)
    }

    /** One more. */
    method ReadOne(cp: nat)
      requires WellFormed(code) && cp < |code| && Reading(cp)
      modifies this
      ensures Reading(cp + 1)
    {
      Step(cp);
    }

    /** All instructions, in order. */
    method ReadAll()
      requires WellFormed(code) && Open(0) && onStack == {}
      modifies this
      ensures Closed() && onStack == AddressTaken(code, |code|)
    {
      var cp := 0;
      while cp < |code|
        invariant cp <= |code|
        invariant Reading(cp)
      {
        ReadOne(cp);
        cp := cp + 1;
      }
    }

    /** After the last instruction. */
    method Finish() returns (f: Flow)
      requires WellFormed(code) && Closed()
      modifies this`g, this`fwd
      ensures f.Of(code)
    {
      Resolve();
      f := Flow(h, t, g, sum);
      ResolvedIsExact(code, f, lbl2bb);
    }
  }

  /** The first reference has become an edge. */
  lemma ReferenceResolved(code: seq<Insn>, t: seq<nat>, g0: Graph, fwd: seq<(nat, nat)>, lbl2bb: map<nat, nat>,
      g: Graph)
    requires Edges(code, t, g0, fwd, lbl2bb) && 0 < |fwd| && g.Valid() && fwd[0].1 in lbl2bb
    requires g.succ == g0.succ[fwd[0].0 := g0.succ[fwd[0].0] + [lbl2bb[fwd[0].1]]]
    ensures Edges(code, t, g, fwd[1..], lbl2bb)
  {
    assert Waits(fwd, fwd[0].0);
    assert Forward(code, t, fwd[1..]);
    forall x: nat {:trigger Waits(fwd[1..], x)} | x < |t|
      ensures t[x] < |code| && EdgesOf(code, t, g.succ[x], Waits(fwd[1..], x), lbl2bb, x)
    {
      WaitsShrinks(fwd, x);
      assert EdgesOf(code, t, g0.succ[x], Waits(fwd, x), lbl2bb, x);
    }
  }

  /** With no reference waiting, successors are exact. */
  lemma ResolvedIsExact(code: seq<Insn>, f: Flow, lbl2bb: map<nat, nat>)
    requires |f.h| == |f.t| == |f.g.succ| && Labels(code, |code|, f.h, lbl2bb) && Edges(code, f.t, f.g, [], lbl2bb)
    ensures forall k: nat {:trigger f.SuccExact(code, k)} :: k < |f.t| ==> f.SuccExact(code, k)
  {
    forall k: nat | k < |f.t| ensures f.SuccExact(code, k) {
      assert !Waits([], k) && EdgesOf(code, f.t, f.g.succ[k], Waits([], k), lbl2bb, k);
      if code[f.t[k]].Jumps() {
        assert f.Heads(code, lbl2bb[code[f.t[k]].target], code[f.t[k]].target);
      }
    }
  }

  /** Taking off the first reference ends the wait of its block only. */
  lemma WaitsShrinks(fwd: seq<(nat, nat)>, x: nat)
    requires 0 < |fwd| && forall i, j :: 0 <= i < j < |fwd| ==> fwd[i].0 < fwd[j].0
    ensures Waits(fwd[1..], x) <==> Waits(fwd, x) && x != fwd[0].0
  {
    if Waits(fwd, x) && x != fwd[0].0 {
      var i :| 0 <= i < |fwd| && fwd[i].0 == x;
      assert fwd[1..][i - 1].0 == x;
    }
  }

  lemma LabelsGrow(code: seq<Insn>, cp: nat, h0: seq<nat>, h: seq<nat>, lbl2bb: map<nat, nat>)
    requires Labels(code, cp, h0, lbl2bb) && cp < |code| && code[cp].EndsBlock()
    requires h == if cp + 1 < |code| then h0 + [cp + 1] else h0
    ensures Labels(code, cp + 1, h, lbl2bb)
  {
  }

  // ----- The open block ends before the label at cp -----

  lemma SplitLayout(code: seq<Insn>, cp: nat, h0: seq<nat>, t0: seq<nat>, h: seq<nat>, t: seq<nat>)
    requires Layout(code, h0, t0) && |h0| == |t0| + 1 && h0[|t0|] < cp < |code| && Straight(code, h0[|t0|], cp)
    requires h == h0 + [cp] && t == t0 + [cp - 1] && code[cp].Label?
    ensures Layout(code, h, t)
  {
    forall k: nat | k < |t| ensures BlockAt(code, h, t, k) {
      assert k < |t0| ==> BlockAt(code, h0, t0, k);
    }
  }

  lemma SplitSummaries(code: seq<Insn>, cp: nat, h0: seq<nat>, t0: seq<nat>, sum0: seq<Summary>, h: seq<nat>,
      t: seq<nat>, sum: seq<Summary>)
    requires Summaries(code, cp, h0, t0, sum0) && |h0| == |t0| + 1 && h0[|t0|] < cp < |code|
    requires h == h0 + [cp] && t == t0 + [cp - 1] && sum == sum0 + [Summary({}, {})]
    ensures Summaries(code, cp, h, t, sum)
  {
    forall k: nat | k < |t| ensures SummaryAt(code, h, t, sum, k) {
      assert k < |t0| ==> SummaryAt(code, h0, t0, sum0, k);
    }
  }

  lemma SplitEdges(code: seq<Insn>, cp: nat, h0: seq<nat>, t0: seq<nat>, g0: Graph, fwd: seq<(nat, nat)>, g: Graph,
      lbl2bb: map<nat, nat>)
    requires Edges(code, t0, g0, fwd, lbl2bb) && |g0.succ| == |t0| + 1 && |h0| == |t0| + 1
    requires h0[|t0|] < cp < |code| && Straight(code, h0[|t0|], cp)
    requires g.Valid() && g.succ == g0.succ[|t0| := g0.succ[|t0|] + [|t0| + 1]] + [[]]
    ensures Edges(code, t0 + [cp - 1], g, fwd, lbl2bb)
  {
    var t := t0 + [cp - 1];
    forall k: nat | k < |t| ensures t[k] < |code| && EdgesOf(code, t, g.succ[k], Waits(fwd, k), lbl2bb, k) {
      assert k < |t0| ==> EdgesOf(code, t0, g0.succ[k], Waits(fwd, k), lbl2bb, k);
    }
  }

  lemma LayoutGrows(code: seq<Insn>, cp: nat, h0: seq<nat>, t0: seq<nat>, h: seq<nat>, t: seq<nat>)
    requires Layout(code, h0, t0) && |h0| == |t0| + 1 && cp < |code| && h0[|t0|] <= cp && Straight(code, h0[|t0|], cp)
    requires code[cp].EndsBlock() && t == t0 + [cp] && h == (if cp + 1 < |code| then h0 + [cp + 1] else h0)
    ensures Layout(code, h, t)
  {
    forall k: nat | k < |t| ensures BlockAt(code, h, t, k) {
      assert k < |t0| ==> BlockAt(code, h0, t0, k);
    }
  }

  lemma SummariesGrow(code: seq<Insn>, cp: nat, h0: seq<nat>, t0: seq<nat>, sum0: seq<Summary>, h: seq<nat>,
      t: seq<nat>, sum: seq<Summary>)
    requires Summaries(code, cp, h0, t0, sum0) && |h0| == |t0| + 1 && cp < |code|
    requires t == t0 + [cp] && h == (if cp + 1 < |code| then h0 + [cp + 1] else h0)
    requires var marked := sum0[|t0| := Mark(sum0[|t0|], code[cp])];
      sum == if cp + 1 < |code| then marked + [Summary({}, {})] else marked
    ensures Summaries(code, cp + 1, h, t, sum)
  {
    forall k: nat | k < |t| ensures SummaryAt(code, h, t, sum, k) {
      assert k < |t0| ==> SummaryAt(code, h0, t0, sum0, k);
    }
  }

  /** The block that ends at cp gets its edges, or a forward reference for its target. */
  lemma EdgesGrow(code: seq<Insn>, cp: nat, t0: seq<nat>, g0: Graph, fwd0: seq<(nat, nat)>, t: seq<nat>, g: Graph,
      fwd: seq<(nat, nat)>, lbl2bb: map<nat, nat>)
    requires Edges(code, t0, g0, fwd0, lbl2bb) && |g0.succ| == |t0| + 1 && cp < |code| && t == t0 + [cp]
    requires g.Valid() && |g.succ| >= |g0.succ|
    requires forall k: nat :: k < |t0| ==> g.succ[k] == g0.succ[k]
    requires forall k: nat :: |t| <= k < |g.succ| ==> g.succ[k] == []
    requires if code[cp].Jumps() && code[cp].target !in lbl2bb then fwd == fwd0 + [(|t0|, code[cp].target)]
      else fwd == fwd0
    requires g.succ[|t0|] ==
      (if code[cp].Jumps() && code[cp].target in lbl2bb then [lbl2bb[code[cp].target]] else []) + Fall(code, t, |t0|)
    ensures Edges(code, t, g, fwd, lbl2bb)
  {
    ForwardGrows(code, cp, t0, fwd0, t, fwd);
    forall k: nat | k < |t| ensures t[k] < |code| && EdgesOf(code, t, g.succ[k], Waits(fwd, k), lbl2bb, k) {
      if k < |t0| {
        WaitsGrows(fwd0, fwd, |t0|, k);
        OlderEdges(code, t0, t, g0.succ[k], Waits(fwd0, k), lbl2bb, k);
      } else {
        NewestWaits(code, t0, fwd0, fwd, |t0|);
      }
    }
  }

  lemma OlderEdges(code: seq<Insn>, t0: seq<nat>, t: seq<nat>, succ: seq<nat>, waits: bool, lbl2bb: map<nat, nat>,
      k: nat)
    requires k < |t0| <= |t| && t[k] == t0[k] < |code|
    requires EdgesOf(code, t0, succ, waits, lbl2bb, k)
    ensures EdgesOf(code, t, succ, waits, lbl2bb, k)
  {
  }

  lemma ForwardGrows(code: seq<Insn>, cp: nat, t0: seq<nat>, fwd0: seq<(nat, nat)>, t: seq<nat>, fwd: seq<(nat, nat)>)
    requires Forward(code, t0, fwd0) && cp < |code| && t == t0 + [cp]
    requires if fwd == fwd0 then true else code[cp].Jumps() && fwd == fwd0 + [(|t0|, code[cp].target)]
    ensures Forward(code, t, fwd)
  {
  }

  lemma WaitsGrows(fwd0: seq<(nat, nat)>, fwd: seq<(nat, nat)>, b: nat, k: nat)
    requires fwd == fwd0 || (|fwd| == |fwd0| + 1 && fwd[..|fwd0|] == fwd0 && fwd[|fwd0|].0 == b)
    requires k != b
    ensures Waits(fwd, k) <==> Waits(fwd0, k)
  {
    assert forall i :: 0 <= i < |fwd0| ==> fwd[i] == fwd0[i];
  }

  /** Block b, the newest, waits exactly when a reference has just been added. */
  lemma NewestWaits(code: seq<Insn>, t: seq<nat>, fwd0: seq<(nat, nat)>, fwd: seq<(nat, nat)>, b: nat)
    requires Forward(code, t, fwd0) && b == |t|
    requires fwd == fwd0 || (|fwd| == |fwd0| + 1 && fwd[..|fwd0|] == fwd0 && fwd[|fwd0|].0 == b)
    ensures Waits(fwd, b) <==> fwd != fwd0
  {
    if fwd != fwd0 {
      assert fwd[|fwd0|].0 == b;
    }
  }

  /** Mapping the label at cp to the block it heads leaves everything else as it was. */
  lemma LabelSeen(code: seq<Insn>, cp: nat, h: seq<nat>, t: seq<nat>, g: Graph, fwd: seq<(nat, nat)>,
      lbl2bb: map<nat, nat>)
    requires WellFormed(code) && cp < |code| && code[cp].Label? && |h| == |t| + 1 && h[|t|] == cp
    requires Labels(code, cp, h, lbl2bb) && Edges(code, t, g, fwd, lbl2bb)
    ensures Labels(code, cp + 1, h, lbl2bb[code[cp].name := |t|])
      && Edges(code, t, g, fwd, lbl2bb[code[cp].name := |t|])
  {
    var l := code[cp].name;
    assert l !in lbl2bb;
    forall k: nat | k < |t| ensures t[k] < |code| && EdgesOf(code, t, g.succ[k], Waits(fwd, k), lbl2bb[l := |t|], k) {
      assert EdgesOf(code, t, g.succ[k], Waits(fwd, k), lbl2bb, k);
    }
  }

  /** A label marks nothing. */
  lemma SummaryOfLabel(code: seq<Insn>, cp: nat, h: seq<nat>, t: seq<nat>, sum: seq<Summary>)
    requires Summaries(code, cp, h, t, sum) && cp < |code| && code[cp].Label? && |t| < |h|
    ensures Summaries(code, cp + 1, h, t, sum)
  {
    assert Summarize(code, h[|t|], cp + 1) == Mark(Summarize(code, h[|t|], cp), code[cp]);
  }
}
