/** Live variables of blocks are those of the instructions: what the solved vectors mean for the
    stream. */
module InstructionLiveness {
  import opened Icode
  import opened FlowGraph
  import opened Liveness
  import opened Machine

  // ----- Paths of instructions -----

  ghost predicate InsnPath(code: seq<Insn>, pcs: seq<nat>) {
    && 0 < |pcs|
    && (forall i: nat :: i < |pcs| ==> pcs[i] < |code|)
    && (forall i: nat {:trigger StepAt(code, pcs, i)} :: i + 1 < |pcs| ==> StepAt(code, pcs, i))
  }

  ghost predicate StepAt(code: seq<Insn>, pcs: seq<nat>, i: nat)
    requires i + 1 < |pcs|
  {
    Follows(code, pcs[i], pcs[i + 1])
  }

  /** The path ends with an instruction that reads v, and none before it writes v. */
  ghost predicate ReadFirst(code: seq<Insn>, pcs: seq<nat>, v: Local) {
    && InsnPath(code, pcs)
    && Reads(code[pcs[|pcs| - 1]], v)
    && (forall i: nat :: i + 1 < |pcs| ==> !Writes(code[pcs[i]], v))
  }

  /** From pc on, v is read before it is written on some path. */
  ghost predicate LiveAt(code: seq<Insn>, pc: nat, v: Local) {
    exists pcs :: ReadFirst(code, pcs, v) && pcs[0] == pc
  }

  lemma Prepend(code: seq<Insn>, pc: nat, pcs: seq<nat>, v: Local)
    requires ReadFirst(code, pcs, v) && Follows(code, pc, pcs[0]) && !Writes(code[pc], v)
    ensures ReadFirst(code, [pc] + pcs, v)
  {
    var path := [pc] + pcs;
    forall i: nat | i + 1 < |path| ensures StepAt(code, path, i) && !Writes(code[path[i]], v) {
      assert i > 0 ==> StepAt(code, pcs, i - 1);
    }
  }

  lemma DropFirst(code: seq<Insn>, pcs: seq<nat>, v: Local)
    requires ReadFirst(code, pcs, v) && 1 < |pcs|
    ensures ReadFirst(code, pcs[1..], v)
    ensures Follows(code, pcs[0], pcs[1]) && !Writes(code[pcs[0]], v)
  {
    assert StepAt(code, pcs, 0);
    var rest := pcs[1..];
    forall i: nat | i + 1 < |rest| ensures StepAt(code, rest, i) && !Writes(code[rest[i]], v) {
      assert StepAt(code, pcs, i + 1);
      assert rest[i] == pcs[i + 1];
    }
  }

  // ----- Blocks -----

  /** The liveness problem of a flow graph. */
  function ProblemOf(f: Flow): Problem {
    Problem(f.g, seq(|f.sum|, b requires 0 <= b < |f.sum| => f.sum[b].use),
      seq(|f.sum|, b requires 0 <= b < |f.sum| => f.sum[b].def))
  }

  lemma BlockSummary(code: seq<Insn>, f: Flow, b: nat)
    requires f.Of(code) && b < |f.t|
    ensures f.h[b] <= f.t[b] < |code| && f.sum[b] == Summarize(code, f.h[b], f.t[b] + 1)
    ensures ProblemOf(f).Valid() && ProblemOf(f).use[b] == f.sum[b].use && ProblemOf(f).def[b] == f.sum[b].def
  {
    assert SummaryAt(code, f.h, f.t, f.sum, b);
  }

  /** A block's vectors act as its instructions. */
  lemma BlockVectors(code: seq<Insn>, f: Flow, b: nat, out: set<Local>)
    requires f.Of(code) && b < |f.t|
    ensures f.h[b] <= f.t[b] < |code| && ProblemOf(f).Valid()
    ensures LiveBefore(code, f.h[b], f.t[b] + 1, out) == ProblemOf(f).use[b] + (out - ProblemOf(f).def[b])
  {
    BlockSummary(code, f, b);
    VectorsExact(code, f.h[b], f.t[b] + 1, out, f.sum[b]);
  }

  lemma VectorsExact(code: seq<Insn>, lo: nat, hi: nat, out: set<Local>, s: Summary)
    requires lo <= hi <= |code| && s == Summarize(code, lo, hi)
    ensures LiveBefore(code, lo, hi, out) == s.use + (out - s.def)
  {
    SummaryExact(code, lo, hi, out);
  }

  /** A block with v in neither vector does not write v. */
  lemma NotMentioned(code: seq<Insn>, f: Flow, b: nat, v: Local)
    requires f.Of(code) && b < |f.t| && v !in f.sum[b].use && v !in f.sum[b].def
    ensures forall x: nat :: f.h[b] <= x <= f.t[b] && x < |code| ==> !Writes(code[x], v)
  {
    BlockSummary(code, f, b);
    SummaryMentions(code, f.h[b], f.t[b] + 1, v);
    forall x: nat | f.h[b] <= x <= f.t[b] && x < |code| ensures !Writes(code[x], v) {
      OperandsExact(code[x], v);
    }
  }

  /** Before its last instruction, control stays in a block. */
  lemma WithinBlock(code: seq<Insn>, f: Flow, b: nat, pc: nat)
    requires f.Of(code) && InBlock(f, pc, b) && pc < f.t[b]
    ensures pc + 1 < |code| && forall pc': nat :: Follows(code, pc, pc') <==> pc' == pc + 1
  {
    assert BlockAt(code, f.h, f.t, b);
  }

  /** From its last instruction, control goes to the heads of its successors. */
  lemma TailFollows(code: seq<Insn>, f: Flow, b: nat, s: nat)
    requires WellFormed(code) && f.Of(code) && f.g.Edge(b, s)
    ensures f.t[b] < |code| && f.h[s] < |code| && Follows(code, f.t[b], f.h[s])
  {
    assert BlockAt(code, f.h, f.t, b) && BlockAt(code, f.h, f.t, s) && f.SuccExact(code, b);
    if code[f.t[b]].Jumps() {
      var x: nat :| x < |f.h| && f.Heads(code, x, code[f.t[b]].target)
        && TargetFirstOrLast(f.g.succ[b], x, Fall(code, f.t, b));
      assert s == x || s in Fall(code, f.t, b);
    }
  }

  lemma TailLeads(code: seq<Insn>, f: Flow, b: nat, pc: nat) returns (s: nat)
    requires WellFormed(code) && f.Of(code) && b < |f.t| && Follows(code, f.t[b], pc)
    ensures f.g.Edge(b, s) && f.h[s] == pc
  {
    assert BlockAt(code, f.h, f.t, b) && f.SuccExact(code, b);
    var last := code[f.t[b]];
    if last.Jumps() && code[pc] == Label(last.target) {
      s :| s < |f.h| && f.Heads(code, s, last.target) && TargetFirstOrLast(f.g.succ[b], s, Fall(code, f.t, b));
    } else {
      s := b + 1;
      assert s in Fall(code, f.t, b);
      if last.Jumps() {
        var x: nat :| x < |f.h| && f.Heads(code, x, last.target)
          && TargetFirstOrLast(f.g.succ[b], x, Fall(code, f.t, b));
      }
    }
  }

  // ----- From instructions to blocks -----

  /** v after block b, if it is live there. */
  ghost function OutOf(f: Flow, b: nat, v: Local): set<Local>
    requires ProblemOf(f).Valid()
  {
    if ProblemOf(f).LiveOut(b, v) then {v} else {}
  }

  lemma LiveFromVectors(code: seq<Insn>, f: Flow, b: nat, v: Local)
    requires f.Of(code) && b < |f.t| && ProblemOf(f).Valid() && f.h[b] <= f.t[b] < |code|
    requires v in LiveBefore(code, f.h[b], f.t[b] + 1, OutOf(f, b, v))
    ensures ProblemOf(f).Live(b, v)
  {
    var q := ProblemOf(f);
    BlockVectors(code, f, b, OutOf(f, b, v));
    if v in q.use[b] {
      LiveHere(q, b, v);
    } else {
      var s: nat :| q.g.Edge(b, s) && q.Live(s, v);
      LiveThrough(q, b, s, v);
    }
  }

  lemma {:induction false} ReadHere(code: seq<Insn>, pc: nat, hi: nat, out: set<Local>, v: Local)
    requires pc < hi <= |code| && Reads(code[pc], v)
    ensures v in LiveBefore(code, pc, hi, out)
  {
    OperandsExact(code[pc], v);
  }

  lemma {:induction false} PassHere(code: seq<Insn>, pc: nat, hi: nat, out: set<Local>, v: Local)
    requires pc < hi <= |code| && !Writes(code[pc], v)
    ensures v in LiveBefore(code, pc + 1, hi, out) ==> v in LiveBefore(code, pc, hi, out)
  {
    OperandsExact(code[pc], v);
  }

  lemma {:induction false} FromInsns(code: seq<Insn>, f: Flow, pcs: seq<nat>, b: nat, v: Local)
    requires WellFormed(code) && f.Of(code) && ProblemOf(f).Valid()
    requires ReadFirst(code, pcs, v) && InBlock(f, pcs[0], b) && f.t[b] < |code|
    ensures v in LiveBefore(code, pcs[0], f.t[b] + 1, OutOf(f, b, v))
    decreases |pcs|
  {
    var out := OutOf(f, b, v);
    if |pcs| == 1 {
      ReadHere(code, pcs[0], f.t[b] + 1, out, v);
    } else {
      DropFirst(code, pcs, v);
      PassHere(code, pcs[0], f.t[b] + 1, out, v);
      if pcs[0] < f.t[b] {
        WithinBlock(code, f, b, pcs[0]);
        FromInsns(code, f, pcs[1..], b, v);
      } else {
        var s := TailLeads(code, f, b, pcs[1]);
        assert BlockAt(code, f.h, f.t, s);
        FromInsns(code, f, pcs[1..], s, v);
        LiveFromVectors(code, f, s, v);
        assert ProblemOf(f).LiveOut(b, v);
      }
    }
  }

  // ----- From blocks to instructions -----

  /** A path within block b to an upward-exposed use. */
  lemma {:induction false} UseWithin(code: seq<Insn>, f: Flow, b: nat, pc: nat, v: Local)
    requires f.Of(code) && InBlock(f, pc, b) && f.t[b] < |code| && v in LiveBefore(code, pc, f.t[b] + 1, {})
    ensures LiveAt(code, pc, v)
    decreases f.t[b] - pc
  {
    if Reads(code[pc], v) {
      assert ReadFirst(code, [pc], v);
    } else {
      assert pc < f.t[b];
      UseWithin(code, f, b, pc + 1, v);
      WithinBlock(code, f, b, pc);
      LiveEarlier(code, pc, pc + 1, v);
    }
  }

  /** A path through a block that does not write v. */
  lemma {:induction false} PassBlock(code: seq<Insn>, f: Flow, b: nat, pc: nat, pc': nat, v: Local)
    requires f.Of(code) && InBlock(f, pc, b) && f.t[b] < |code|
    requires forall x: nat :: pc <= x <= f.t[b] && x < |code| ==> !Writes(code[x], v)
    requires Follows(code, f.t[b], pc') && LiveAt(code, pc', v)
    ensures LiveAt(code, pc, v)
    decreases f.t[b] - pc
  {
    if pc < f.t[b] {
      PassBlock(code, f, b, pc + 1, pc', v);
      WithinBlock(code, f, b, pc);
      LiveEarlier(code, pc, pc + 1, v);
    } else {
      LiveEarlier(code, pc, pc', v);
    }
  }

  lemma LiveEarlier(code: seq<Insn>, pc: nat, pc': nat, v: Local)
    requires LiveAt(code, pc', v) && Follows(code, pc, pc') && !Writes(code[pc], v)
    ensures LiveAt(code, pc, v)
  {
    var pcs :| ReadFirst(code, pcs, v) && pcs[0] == pc';
    Prepend(code, pc, pcs, v);
    assert ([pc] + pcs)[0] == pc;
  }

  lemma {:induction false} ToInsns(code: seq<Insn>, f: Flow, p: seq<nat>, v: Local)
    requires WellFormed(code) && f.Of(code) && ProblemOf(f).Valid() && ProblemOf(f).LiveAlong(p, v)
    ensures p[0] < |f.h| && LiveAt(code, f.h[p[0]], v)
    decreases |p|
  {
    var q, b := ProblemOf(f), p[0];
    BlockSummary(code, f, b);
    if v in q.use[b] {
      BlockVectors(code, f, b, {});
      UseWithin(code, f, b, f.h[b], v);
    } else {
      LaterAlong(q, p, v);
      ToInsns(code, f, p[1..], v);
      TailFollows(code, f, b, p[1]);
      NotMentioned(code, f, b, v);
      PassBlock(code, f, b, f.h[b], f.h[p[1]], v);
    }
  }

  lemma LaterAlong(q: Problem, p: seq<nat>, v: Local)
    requires q.Valid() && q.LiveAlong(p, v) && v !in q.use[p[0]]
    ensures 1 < |p| && q.g.Edge(p[0], p[1]) && q.LiveAlong(p[1..], v) && v !in q.def[p[0]]
  {
    var rest := p[1..];
    forall i | 0 <= i < |rest| - 1 ensures q.g.Edge(rest[i], rest[i + 1]) {
      assert q.g.Edge(p[i + 1], p[i + 2]);
    }
    assert q.g.Edge(p[0], p[0 + 1]);
  }

  // ----- The theorem -----

  /** A variable is live at the entry of a block exactly when some path of instructions from its head
      reads it before it is written. */
  lemma BlockLiveIffInsnLive(code: seq<Insn>, f: Flow, b: nat, v: Local)
    requires WellFormed(code) && f.Of(code) && b < |f.t|
    ensures ProblemOf(f).Valid()
    ensures ProblemOf(f).Live(b, v) <==> LiveAt(code, f.h[b], v)
  {
    var q := ProblemOf(f);
    BlockVectors(code, f, b, {});
    if q.Live(b, v) {
      var p :| q.LiveAlong(p, v) && p[0] == b;
      ToInsns(code, f, p, v);
    }
    if LiveAt(code, f.h[b], v) {
      var pcs :| ReadFirst(code, pcs, v) && pcs[0] == f.h[b];
      FromInsns(code, f, pcs, b, v);
      LiveFromVectors(code, f, b, v);
    }
  }
}
