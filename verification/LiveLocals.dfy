/** Live locals of a flow graph: the relaxation, set up for the blocks of a stream. */
module LiveLocals {
  import opened Icode
  import opened FlowGraph
  import opened Liveness
  import opened Relaxation
  import opened InstructionLiveness

  // ----- One storage class -----

  /** The locals of one class. */
  function OfKind(s: set<Local>, fp: bool): set<Local> {
    set v | v in s && v.FpVar? == fp
  }

  /** The liveness problem of one class. */
  function ClassProblem(f: Flow, fp: bool): Problem {
    Problem(f.g, seq(|f.sum|, b requires 0 <= b < |f.sum| => OfKind(f.sum[b].use, fp)),
      seq(|f.sum|, b requires 0 <= b < |f.sum| => OfKind(f.sum[b].def, fp)))
  }

  /** Each class is solved as if there were no other. */
  lemma ClassLive(f: Flow, fp: bool, b: nat, v: Local)
    requires ProblemOf(f).Valid() && ClassProblem(f, fp).Valid()
    ensures ClassProblem(f, fp).Live(b, v) <==> v.FpVar? == fp && ProblemOf(f).Live(b, v)
  {
    var q, q' := ProblemOf(f), ClassProblem(f, fp);
    if v.FpVar? == fp && q.Live(b, v) {
      var p :| q.LiveAlong(p, v) && p[0] == b;
      assert q'.LiveAlong(p, v);
    }
    if q'.Live(b, v) {
      var p :| q'.LiveAlong(p, v) && p[0] == b;
      assert q.LiveAlong(p, v);
    }
  }

  ghost function AllUses(q: Problem): set<Local> {
    set b, v | 0 <= b < |q.use| && v in q.use[b] :: v
  }

  /** At every block, the vectors of a class hold exactly its locals that are live there by the
      instructions. */
  ghost predicate InsnExact(code: seq<Insn>, f: Flow, fp: bool, liveIn: seq<Vector>) {
    && |liveIn| == |f.h|
    && forall b: nat, v: Local {:trigger v in liveIn[b].Bits()} ::
         b < |liveIn| ==> (v in liveIn[b].Bits() <==> v.FpVar? == fp && LiveAt(code, f.h[b], v))
  }

  lemma ExactForInsns(code: seq<Insn>, f: Flow, fp: bool, s: State)
    requires WellFormed(code) && f.Of(code) && s.Shape(ClassProblem(f, fp)) && Exact(ClassProblem(f, fp), s)
    ensures InsnExact(code, f, fp, s.liveIn)
  {
    forall b: nat, v: Local | b < |s.liveIn|
      ensures v in s.liveIn[b].Bits() <==> v.FpVar? == fp && LiveAt(code, f.h[b], v)
    {
      BlockLiveIffInsnLive(code, f, b, v);
      ClassLive(f, fp, b, v);
    }
  }

  // ----- Both classes -----

  /** Live locals of both classes, as far as there are any: at the entry of every block exactly those
      that some path of instructions from there reads before it writes them. */
  method LiveLocalsOf(ghost code: seq<Insn>, f: Flow, numI: nat, numF: nat) returns (lv: FlowLiveness)
    requires WellFormed(code) && f.Of(code)
    ensures numI > 0 ==> InsnExact(code, f, false, lv.ints.liveIn)
    ensures numF > 0 ==> InsnExact(code, f, true, lv.floats.liveIn)
  {
    var qi, qf := ClassProblem(f, false), ClassProblem(f, true);
    var ints := new LiveVars(qi, AllUses(qi));
    var floats := new LiveVars(qf, AllUses(qf));
    lv := new FlowLiveness(ints, floats, numI, numF);
    lv.Solve();
    if numI > 0 {
      ExactForInsns(code, f, false, ints.Snap());
    }
    if numF > 0 {
      ExactForInsns(code, f, true, floats.Snap());
    }
  }
}
