/** What a program means: its instructions run over named cells. */
module Machine {
  import opened Icode
  import opened FlowGraph

  /** Where values are kept: under the local's own name, or in the storage it was given. */
  datatype Cell = Name(v: Local) | IReg(r: nat) | FReg(r: nat) | Slot(s: nat)

  /** The control state and everything outside the cells: memory, input and output. */
  datatype Control<W> = At(pc: nat, world: W) | Halted(world: W)

  /** What one instruction does with the values it reads: the value it writes, the new world, and
      whether a conditional branch is taken. */
  datatype Effect<V, W> = Effect(value: V, world: W, taken: bool)

  /** The locals whose contents an instruction needs; taking an address needs none. */
  function Inputs(insn: Insn): seq<Local> {
    match insn
    case Compute(srcs, _) => srcs
    case Lea(_, _) => []
    case Effect(srcs) => srcs
    case Call(srcs, _) => srcs
    case Branch(srcs, _) => srcs
    case Goto(_) => []
    case Ret(srcs) => srcs
    case Label(_) => []
  }

  /** The local that an instruction gives a new value. */
  function Output(insn: Insn): Local {
    match insn
    case Compute(_, dst) => dst
    case Lea(_, dst) => dst
    case Effect(_) => Special
    case Call(_, dst) => dst
    case Branch(_, _) => Special
    case Goto(_) => Special
    case Ret(_) => Special
    case Label(_) => Special
  }

  /** An instruction names v as something it reads, be it for its address. */
  predicate Reads(insn: Insn, v: Local) {
    v != Special && (v in Inputs(insn) || (insn.Lea? && insn.src == v))
  }

  predicate Writes(insn: Insn, v: Local) {
    v != Special && v == Output(insn)
  }

  /** The use and def sets of an instruction are what it reads and what it writes. */
  lemma OperandsExact(insn: Insn, v: Local)
    ensures v in insn.Uses() <==> Reads(insn, v)
    ensures v in insn.Defs() <==> Writes(insn, v)
  {
  }

  datatype Program<!V, !W> = Program(code: seq<Insn>, sem: (nat, seq<V>, W) -> Effect<V, W>, zero: V) {

    function Contents(pc: nat): seq<Local>
      requires pc < |code|
    {
      Inputs(code[pc])
    }

    function Values(vs: seq<Local>, rho: Local -> Cell, store: Cell -> V): seq<V> {
      seq(|vs|, i requires 0 <= i < |vs| => if vs[i] == Special then zero else store(rho(vs[i])))
    }

    /** The position of label l, or the end of the code. */
    ghost function Position(l: nat): nat {
      if pc: nat :| pc < |code| && code[pc] == Label(l) then pc else |code|
    }

    ghost function Next(pc: nat, taken: bool): nat
      requires pc < |code|
    {
      if code[pc].Goto? || (code[pc].Branch? && taken) then Position(code[pc].target) else pc + 1
    }

    /** One step, with every local v kept in cell rho(v). */
    ghost function Step(rho: Local -> Cell, c: Control<W>, store: Cell -> V): (Control<W>, Cell -> V)
    {
      if c.Halted? || c.pc >= |code| then (c, store)
      else
        var e := sem(c.pc, Values(Contents(c.pc), rho, store), c.world);
        var w := Output(code[c.pc]);
        (if code[c.pc].Ret? then Halted(e.world) else At(Next(c.pc, e.taken), e.world),
         if w == Special then store else (x: Cell) => if x == rho(w) then e.value else store(x))
    }

    /** The state after n steps from the first instruction. */
    ghost function Run(rho: Local -> Cell, world: W, store: Cell -> V, n: nat): (Control<W>, Cell -> V)
    {
      if n == 0 then (At(0, world), store)
      else
        var (c, s) := Run(rho, world, store, n - 1);
        Step(rho, c, s)
    }
  }

  // ----- Runs follow the flow graph -----

  /** Instruction pc lies in block k. */
  predicate InBlock(f: Flow, pc: nat, k: nat) {
    k < |f.h| && k < |f.t| && f.h[k] <= pc <= f.t[k]
  }

  lemma {:induction false} SomeBlock(code: seq<Insn>, f: Flow, pc: nat, k: nat)
    requires f.Of(code) && k < |f.t| && pc <= f.t[k]
    ensures exists j: nat :: InBlock(f, pc, j)
  {
    assert BlockAt(code, f.h, f.t, k);
    if f.h[k] <= pc {
      assert InBlock(f, pc, k);
    } else {
      assert k > 0;
      assert BlockAt(code, f.h, f.t, k - 1);
      SomeBlock(code, f, pc, k - 1);
    }
  }

  ghost function BlockOf(code: seq<Insn>, f: Flow, pc: nat): (k: nat)
    requires f.Of(code) && pc < |code|
    ensures InBlock(f, pc, k)
  {
    SomeBlock(code, f, pc, |f.t| - 1);
    var k: nat :| InBlock(f, pc, k);
    k
  }

  /** Blocks do not overlap. */
  lemma {:induction false} BlocksInOrder(code: seq<Insn>, f: Flow, j: nat, k: nat)
    requires f.Of(code) && j < k < |f.t|
    ensures f.t[j] < f.h[k]
  {
    assert BlockAt(code, f.h, f.t, k - 1);
    if j < k - 1 {
      BlocksInOrder(code, f, j, k - 1);
    }
  }

  lemma BlockUnique(code: seq<Insn>, f: Flow, pc: nat, j: nat, k: nat)
    requires f.Of(code) && InBlock(f, pc, j) && InBlock(f, pc, k)
    ensures j == k
  {
    if j < k {
      BlocksInOrder(code, f, j, k);
    } else if k < j {
      BlocksInOrder(code, f, k, j);
    }
  }

  /** Control may pass from pc to pc'. */
  ghost predicate Follows(code: seq<Insn>, pc: nat, pc': nat) {
    && pc < |code| && pc' < |code|
    && match code[pc]
       case Goto(l) => code[pc'] == Label(l)
       case Branch(_, l) => pc' == pc + 1 || code[pc'] == Label(l)
       case Ret(_) => false
       case _ => pc' == pc + 1
  }

  /** Control stays in a block or follows an edge of the flow graph. */
  lemma FollowsEdge(code: seq<Insn>, f: Flow, pc: nat, pc': nat)
    requires WellFormed(code) && f.Of(code) && Follows(code, pc, pc')
    ensures var k, k' := BlockOf(code, f, pc), BlockOf(code, f, pc'); k == k' || f.g.Edge(k, k')
  {
    var k, k' := BlockOf(code, f, pc), BlockOf(code, f, pc');
    assert BlockAt(code, f.h, f.t, k) && f.SuccExact(code, k);
    if code[pc].Jumps() && code[pc'] == Label(code[pc].target) {
      assert pc == f.t[k];
      var s: nat :| s < |f.h| && f.Heads(code, s, code[pc].target)
        && TargetFirstOrLast(f.g.succ[k], s, Fall(code, f.t, k));
      assert f.h[s] == pc';
      assert BlockAt(code, f.h, f.t, s);
      BlockUnique(code, f, pc', s, k');
    } else if pc < f.t[k] {
      BlockUnique(code, f, pc', k, k');
    } else {
      assert k + 1 < |f.h|;
      assert BlockAt(code, f.h, f.t, k + 1);
      BlockUnique(code, f, pc', k + 1, k');
    }
  }

  // ----- Where blocks begin and end -----

  predicate Transfer(insn: Insn) {
    insn.Call? || insn.Branch? || insn.Goto? || insn.Ret?
  }

  /** Blocks end exactly at transfers of control and before labels. */
  lemma TailIff(code: seq<Insn>, f: Flow, pc: nat)
    requires f.Of(code) && pc < |code|
    ensures (exists k: nat :: k < |f.t| && f.t[k] == pc) <==>
      pc + 1 == |code| || Transfer(code[pc]) || code[pc + 1].Label?
  {
    var k := BlockOf(code, f, pc);
    assert BlockAt(code, f.h, f.t, k);
    if j: nat :| j < |f.t| && f.t[j] == pc {
      assert BlockAt(code, f.h, f.t, j);
    }
  }

  /** Blocks begin exactly at labels and behind transfers of control. */
  lemma HeadIff(code: seq<Insn>, f: Flow, pc: nat)
    requires f.Of(code) && pc < |code|
    ensures (exists k: nat :: k < |f.h| && f.h[k] == pc) <==>
      pc == 0 || Transfer(code[pc - 1]) || code[pc].Label?
  {
    var k := BlockOf(code, f, pc);
    assert BlockAt(code, f.h, f.t, k);
    if j: nat :| j < |f.h| && f.h[j] == pc {
      assert j > 0 ==> BlockAt(code, f.h, f.t, j - 1);
    }
    if pc > 0 {
      TailIff(code, f, pc - 1);
    }
  }
}
