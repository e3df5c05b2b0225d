/** Live variables: what liveness means, and the equations the relaxation solves. */
module Liveness {
  import opened Graphs
  import opened Icode
  import opened FlowGraph

  // ----- One block -----

  /** The variables live before code[lo..hi], given those live after it, one instruction at a time. */
  function LiveBefore(code: seq<Insn>, lo: nat, hi: nat, out: set<Local>): set<Local>
    requires lo <= hi <= |code|
    decreases hi - lo
  {
    if lo == hi then out else code[lo].Uses() + (LiveBefore(code, lo + 1, hi, out) - code[lo].Defs())
  }

  lemma {:induction false} LiveBeforeLast(code: seq<Insn>, lo: nat, hi: nat, out: set<Local>)
    requires lo < hi <= |code|
    ensures LiveBefore(code, lo, hi, out) ==
      LiveBefore(code, lo, hi - 1, code[hi - 1].Uses() + (out - code[hi - 1].Defs()))
    decreases hi - lo
  {
    if lo + 1 < hi {
      LiveBeforeLast(code, lo + 1, hi, out);
    } else {
      assert LiveBefore(code, hi, hi, out) == out;
    }
  }

  /** A block's use and def vectors act on live variables exactly as its instructions do. */
  lemma {:induction false} SummaryExact(code: seq<Insn>, lo: nat, hi: nat, out: set<Local>)
    requires lo <= hi <= |code|
    ensures var s := Summarize(code, lo, hi);
      s.use !! s.def && LiveBefore(code, lo, hi, out) == s.use + (out - s.def)
    decreases hi
  {
    if lo < hi {
      LiveBeforeLast(code, lo, hi, out);
      SummaryExact(code, lo, hi - 1, code[hi - 1].Uses() + (out - code[hi - 1].Defs()));
    }
  }

  /** Every tracked local that a block mentions is in one of its vectors, and no other is. */
  lemma {:induction false} SummaryMentions(code: seq<Insn>, lo: nat, hi: nat, v: Local)
    requires lo <= hi <= |code|
    ensures var s := Summarize(code, lo, hi);
      v in s.use + s.def <==> exists pc :: lo <= pc < hi && v in code[pc].Uses() + code[pc].Defs()
    decreases hi
  {
    if lo < hi {
      SummaryMentions(code, lo, hi - 1, v);
    }
  }

  // ----- The whole graph -----

  /** A flow graph with a use and a def set for every block. */
  datatype Problem = Problem(g: Graph, use: seq<set<Local>>, def: seq<set<Local>>) {

    ghost predicate Valid() {
      g.Valid() && |use| == |def| == |g.succ|
    }

    /** The path leads to a block that uses v before defining it, past blocks that leave v alone. */
    ghost predicate LiveAlong(p: seq<nat>, v: Local)
      requires Valid()
    {
      && g.Path(p)
      && v in use[p[|p| - 1]]
      && (forall i {:trigger p[i]} :: 0 <= i < |p| - 1 ==> v !in def[p[i]])
    }

    /** v is live on entry to block b. */
    ghost predicate Live(b: nat, v: Local)
      requires Valid()
    {
      exists p :: LiveAlong(p, v) && p[0] == b
    }

    /** v is live on exit from block b. */
    ghost predicate LiveOut(b: nat, v: Local)
      requires Valid()
    {
      exists s: nat :: g.Edge(b, s) && Live(s, v)
    }

    /** A solution of in = use + (out - def) with out the union of the successors' in. */
    ghost predicate Closed(live: seq<set<Local>>)
      requires Valid() && |live| == |g.succ|
    {
      forall b: nat :: b < |live| ==> use[b] <= live[b] && forall s: nat ::
        g.Edge(b, s) && s < |live| ==> live[s] - def[b] <= live[b]
    }
  }

  lemma LiveHere(q: Problem, b: nat, v: Local)
    requires q.Valid() && q.g.Node(b) && v in q.use[b]
    ensures q.Live(b, v)
  {
    assert q.LiveAlong([b], v);
  }

  lemma LiveThrough(q: Problem, b: nat, s: nat, v: Local)
    requires q.Valid() && q.g.Edge(b, s) && q.Live(s, v) && v !in q.def[b]
    ensures q.Live(b, v)
  {
    var p :| q.LiveAlong(p, v) && p[0] == s;
    var p' := [b] + p;
    assert forall i :: 0 < i < |p'| ==> p'[i] == p[i - 1];
    forall i | 0 <= i < |p'| - 1 ensures q.g.Edge(p'[i], p'[i + 1]) {
      assert i > 0 ==> q.g.Edge(p[i - 1], p[i]);
    }
    assert q.LiveAlong(p', v);
  }

  /** Whatever solves the equations contains what is live along any path: liveness is least. */
  lemma {:induction false} ClosedContainsPath(q: Problem, live: seq<set<Local>>, p: seq<nat>, v: Local)
    requires q.Valid() && |live| == |q.g.succ| && q.Closed(live) && q.LiveAlong(p, v)
    ensures v in live[p[0]]
  {
    if |p| > 1 {
      var p' := p[1..];
      assert forall i :: 0 <= i < |p'| ==> p'[i] == p[i + 1];
      forall i | 0 <= i < |p'| - 1 ensures q.g.Edge(p'[i], p'[i + 1]) {
        assert q.g.Edge(p[i + 1], p[i + 2]);
      }
      assert q.LiveAlong(p', v);
      ClosedContainsPath(q, live, p', v);
      assert q.g.Edge(p[0], p[1]);
    }
  }

  /** Liveness is the least solution. */
  lemma LivenessIsLeast(q: Problem, live: seq<set<Local>>)
    requires q.Valid() && |live| == |q.g.succ| && q.Closed(live)
    ensures forall b: nat, v :: b < |live| && q.Live(b, v) ==> v in live[b]
  {
    forall b: nat, v | b < |live| && q.Live(b, v) ensures v in live[b] {
      var p :| q.LiveAlong(p, v) && p[0] == b;
      ClosedContainsPath(q, live, p, v);
    }
  }
}
