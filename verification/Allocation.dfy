/** Register allocation preserves meaning. */
module Allocation {
  import opened Graphs
  import opened Icode
  import opened FlowGraph
  import opened Scc
  import opened Machine
  import Liveness

  /** The variables each block mentions. */
  function Vars(f: Flow): seq<set<Local>> {
    seq(|f.sum|, u requires 0 <= u < |f.sum| => f.sum[u].use + f.sum[u].def)
  }

  /** A flow graph with numbered components. */
  datatype Numbered = Numbered(code: seq<Insn>, f: Flow, scnOf: seq<nat>) {

    ghost predicate Valid() {
      && WellFormed(code) && f.Of(code)
      && |scnOf| == |f.g.succ| && Monotone(f.g, scnOf)
      && (forall u: nat :: f.g.Reaches(0, u) && u < |scnOf| ==> 0 < scnOf[u])
    }

    ghost predicate Occurs(v: Local, k: nat)
      requires Valid()
    {
      0 < k && InComponent(Vars(f), scnOf, k, v)
    }

    /** w occurs in a component that lies between two occurrences of v. */
    ghost predicate Together(v: Local, w: Local)
      requires Valid()
    {
      exists a: nat, k: nat, b: nat :: a <= k <= b && Occurs(v, a) && Occurs(v, b) && Occurs(w, k)
    }

    /** Locals that may be in use together are kept in different cells; so are parameters. */
    ghost predicate Separated(params: set<Local>, rho: Local -> Cell)
      requires Valid()
    {
      && (forall v, w {:trigger Together(v, w)} ::
            v !in params && w !in params && v != w && v != Special && w != Special && Together(v, w) ==>
              rho(v) != rho(w))
      && (forall p, w {:trigger p in params, rho(w)} ::
            p in params && p != w && w != Special && p != Special && (exists k: nat :: Occurs(w, k)) ==>
              rho(p) != rho(w))
    }

    /** The component of instruction pc. */
    ghost function Component(pc: nat): nat
      requires Valid() && pc < |code|
    {
      scnOf[BlockOf(code, f, pc)]
    }
  }

  lemma MentionOccurs(q: Numbered, pc: nat, v: Local)
    requires q.Valid() && pc < |q.code| && q.f.g.Reaches(0, BlockOf(q.code, q.f, pc))
    requires Reads(q.code[pc], v) || Writes(q.code[pc], v)
    ensures q.Occurs(v, q.Component(pc))
  {
    var k := BlockOf(q.code, q.f, pc);
    OperandsExact(q.code[pc], v);
    assert SummaryAt(q.code, q.f.h, q.f.t, q.f.sum, k);
    Liveness.SummaryMentions(q.code, q.f.h[k], q.f.t[k] + 1, v);
    assert v in Vars(q.f)[k];
  }

  /** Conversely, only locals that some instruction reads or writes occur. */
  lemma OccursMentioned(q: Numbered, v: Local, k: nat) returns (pc: nat)
    requires q.Valid() && q.Occurs(v, k)
    ensures pc < |q.code| && (Reads(q.code[pc], v) || Writes(q.code[pc], v))
    ensures q.Component(pc) == k
  {
    var u: nat :| u < |Vars(q.f)| && q.scnOf[u] == k && v in Vars(q.f)[u];
    assert SummaryAt(q.code, q.f.h, q.f.t, q.f.sum, u);
    Liveness.SummaryMentions(q.code, q.f.h[u], q.f.t[u] + 1, v);
    var i :| q.f.h[u] <= i < q.f.t[u] + 1 && v in q.code[i].Uses() + q.code[i].Defs();
    pc := i;
    OperandsExact(q.code[pc], v);
    assert InBlock(q.f, pc, u);
    BlockUnique(q.code, q.f, pc, u, BlockOf(q.code, q.f, pc));
  }

  // ----- Runs -----

  /** A run of the program from an initial world and store. */
  datatype Execution<!V, !W> =
    Execution(q: Numbered, p: Program<V, W>, rho: Local -> Cell, world: W, store: Cell -> V)
  {

    ghost predicate Valid() {
      q.Valid() && p.code == q.code
    }

    ghost function State(i: nat): (Control<W>, Cell -> V) {
      p.Run(rho, world, store, i)
    }

    /** Step i executes instruction pc. */
    ghost predicate Executes(i: nat, pc: nat) {
      pc < |p.code| && State(i).0.At? && State(i).0.pc == pc
    }

    ghost predicate ReadAt(i: nat, v: Local) {
      v != Special && exists pc: nat :: Executes(i, pc) && v in p.Contents(pc)
    }

    ghost predicate WrittenAt(i: nat, v: Local) {
      exists pc: nat :: Executes(i, pc) && Writes(p.code[pc], v)
    }

    ghost predicate WrittenBefore(i: nat, v: Local) {
      exists k: nat :: k < i && WrittenAt(k, v)
    }

    ghost predicate ReadLater(i: nat, n: nat, v: Local) {
      exists j: nat :: i <= j < n && ReadAt(j, v)
    }

    /** In the first n steps every local but parameters is written before it is read. */
    ghost predicate Legal(params: set<Local>, n: nat) {
      forall i: nat, v :: i < n && ReadAt(i, v) ==> v in params || WrittenBefore(i, v)
    }
  }

  lemma NextFollows<V, W>(e: Execution<V, W>, pc: nat, taken: bool)
    requires e.Valid() && pc < |e.p.code| && !e.p.code[pc].Ret?
    ensures Follows(e.p.code, pc, e.p.Next(pc, taken))
  {
    var code := e.p.code;
    if code[pc].Goto? || (code[pc].Branch? && taken) {
      assert Defined(code, code[pc].target);
      var i :| 0 <= i < |code| && code[i] == Label(code[pc].target);
    }
  }

  /** A run stays within the code, in blocks reachable from the root, with numbers above 0. */
  lemma {:induction false} RunReaches<V, W>(e: Execution<V, W>, i: nat)
    requires e.Valid() && e.State(i).0.At?
    ensures e.State(i).0.pc < |e.p.code|
    ensures e.q.f.g.Reaches(0, BlockOf(e.q.code, e.q.f, e.State(i).0.pc)) && 0 < e.q.Component(e.State(i).0.pc)
  {
    var q := e.q;
    if i == 0 {
      assert BlockAt(q.code, q.f.h, q.f.t, 0);
      BlockUnique(q.code, q.f, 0, 0, BlockOf(q.code, q.f, 0));
      ReachesSelf(q.f.g, 0);
    } else {
      RunReaches(e, i - 1);
      var pc := e.State(i - 1).0.pc;
      var taken := e.p.sem(pc, e.p.Values(e.p.Contents(pc), e.rho, e.State(i - 1).1), e.State(i - 1).0.world).taken;
      NextFollows(e, pc, taken);
      FollowsEdge(q.code, q.f, pc, e.State(i).0.pc);
      var k, k' := BlockOf(q.code, q.f, pc), BlockOf(q.code, q.f, e.State(i).0.pc);
      if k != k' {
        ReachesEdge(q.f.g, k, k');
        ReachesTransitive(q.f.g, 0, k, k');
      }
    }
  }

  /** The component number does not fall in one step. */
  lemma NextComponent<V, W>(e: Execution<V, W>, i: nat)
    requires e.Valid() && e.State(i + 1).0.At?
    ensures e.State(i).0.At? && e.State(i).0.pc < |e.p.code| && e.State(i + 1).0.pc < |e.p.code|
    ensures e.q.Component(e.State(i).0.pc) <= e.q.Component(e.State(i + 1).0.pc)
  {
    RunReaches(e, i + 1);
    RunReaches(e, i);
    var q := e.q;
    var pc := e.State(i).0.pc;
    NextFollows(e, pc, e.p.sem(pc, e.p.Values(e.p.Contents(pc), e.rho, e.State(i).1), e.State(i).0.world).taken);
    FollowsEdge(q.code, q.f, pc, e.State(i + 1).0.pc);
  }

  /** Component numbers never fall along a run. */
  lemma {:induction false} RunMonotone<V, W>(e: Execution<V, W>, i: nat, j: nat)
    requires e.Valid() && i <= j && e.State(j).0.At?
    ensures e.State(i).0.At? && e.State(i).0.pc < |e.p.code| && e.State(j).0.pc < |e.p.code|
    ensures e.q.Component(e.State(i).0.pc) <= e.q.Component(e.State(j).0.pc)
    decreases j - i
  {
    RunReaches(e, j);
    if i < j {
      NextComponent(e, j - 1);
      RunMonotone(e, i, j - 1);
    }
  }

  /** A local that is read or written at step i occurs in the component where the run then is. */
  lemma StepOccurs<V, W>(e: Execution<V, W>, i: nat, v: Local)
    requires e.Valid() && (e.ReadAt(i, v) || e.WrittenAt(i, v))
    ensures e.State(i).0.At? && e.State(i).0.pc < |e.p.code| && e.q.Occurs(v, e.q.Component(e.State(i).0.pc))
  {
    RunReaches(e, i);
    MentionOccurs(e.q, e.State(i).0.pc, v);
  }

  /** The key step: a local written before step i and read after it was in use together with the
      one written at step i. */
  lemma InUseTogether<V, W>(e: Execution<V, W>, k: nat, i: nat, j: nat, v: Local, w: Local)
    requires e.Valid() && k <= i <= j && e.WrittenAt(k, v) && e.WrittenAt(i, w) && e.ReadAt(j, v)
    ensures e.q.Together(v, w)
  {
    StepOccurs(e, k, v);
    StepOccurs(e, i, w);
    StepOccurs(e, j, v);
    RunMonotone(e, k, i);
    RunMonotone(e, i, j);
  }

  // ----- The theorem -----

  /** v has been written before step i, or is a parameter, and will be read before step n. */
  ghost predicate Needed<V, W>(e: Execution<V, W>, params: set<Local>, v: Local, i: nat, n: nat) {
    (v in params || e.WrittenBefore(i, v)) && e.ReadLater(i, n, v)
  }

  /** The two runs are in the same control state, and the cells of v agree wherever v is needed. */
  ghost predicate Agree<V, W>(e: Execution<V, W>, e': Execution<V, W>, params: set<Local>, i: nat, n: nat) {
    && e'.State(i).0 == e.State(i).0
    && (forall v {:trigger Needed(e, params, v, i, n)} ::
          Needed(e, params, v, i, n) ==> e'.State(i).1(e'.rho(v)) == e.State(i).1(Name(v)))
  }

  /** e names cells after locals; e' keeps locals in the cells of an allocation. */
  ghost predicate Allocates<V, W>(e: Execution<V, W>, e': Execution<V, W>, params: set<Local>) {
    && e.Valid() && e'.q == e.q && e'.p == e.p && e'.world == e.world
    && (forall v :: e.rho(v) == Name(v))
    && e.q.Separated(params, e'.rho)
    && (forall v :: v in params ==> e'.store(e'.rho(v)) == e.store(Name(v)))
  }

  /** Where the runs agree they read the same values. */
  lemma SameValues<V, W>(e: Execution<V, W>, e': Execution<V, W>, params: set<Local>, i: nat, n: nat, pc: nat)
    requires Allocates(e, e', params) && e.Legal(params, n) && i < n && Agree(e, e', params, i, n) && e.Executes(i, pc)
    ensures e.p.Values(e.p.Contents(pc), e'.rho, e'.State(i).1) == e.p.Values(e.p.Contents(pc), e.rho, e.State(i).1)
  {
    var vs := e.p.Contents(pc);
    forall x: nat | x < |vs| && vs[x] != Special ensures e'.State(i).1(e'.rho(vs[x])) == e.State(i).1(e.rho(vs[x])) {
      assert e.ReadAt(i, vs[x]);
      assert e.ReadLater(i, n, vs[x]);
      assert Needed(e, params, vs[x], i, n);
    }
  }

  /** A step writes at most one local. */
  lemma WritesOne<V, W>(e: Execution<V, W>, i: nat, v: Local, w: Local)
    requires e.WrittenAt(i, v) && e.WrittenAt(i, w)
    ensures v == w
  {
    var pc: nat :| e.Executes(i, pc) && Writes(e.p.code[pc], v);
    var pc': nat :| e.Executes(i, pc') && Writes(e.p.code[pc'], w);
    assert pc == pc';
  }

  /** A write does not disturb the cell of another local that is still needed. */
  lemma WriteSpares<V, W>(e: Execution<V, W>, e': Execution<V, W>, params: set<Local>, i: nat, n: nat, v: Local,
      w: Local)
    requires Allocates(e, e', params) && e.WrittenAt(i, w) && v != w && Needed(e, params, v, i, n)
    ensures e'.rho(v) != e'.rho(w)
  {
    var j: nat :| i <= j < n && e.ReadAt(j, v);
    StepOccurs(e, j, v);
    StepOccurs(e, i, w);
    if v !in params && w !in params {
      var k: nat :| k < i && e.WrittenAt(k, v);
      InUseTogether(e, k, i, j, v, w);
    }
  }

  /** One step keeps the agreement. */
  lemma StepAgrees<V, W>(e: Execution<V, W>, e': Execution<V, W>, params: set<Local>, i: nat, n: nat)
    requires Allocates(e, e', params) && e.Legal(params, n) && i < n && Agree(e, e', params, i, n)
    ensures Agree(e, e', params, i + 1, n)
  {
    if e.State(i).0.At? {
      RunReaches(e, i);
      var pc := e.State(i).0.pc;
      assert e.Executes(i, pc);
      SameValues(e, e', params, i, n, pc);
      var w := Output(e.p.code[pc]);
      forall v | Needed(e, params, v, i + 1, n) ensures e'.State(i + 1).1(e'.rho(v)) == e.State(i + 1).1(Name(v)) {
        if w == Special {
          assert !e.WrittenAt(i, v);
          NeededEarlier(e, params, v, i, n);
        } else if v != w {
          assert e.WrittenAt(i, w);
          if e.WrittenAt(i, v) {
            WritesOne(e, i, v, w);
          }
          NeededEarlier(e, params, v, i, n);
          WriteSpares(e, e', params, i, n, v, w);
        }
      }
    } else {
      forall v | Needed(e, params, v, i + 1, n) ensures e'.State(i + 1).1(e'.rho(v)) == e.State(i + 1).1(Name(v)) {
        NeededEarlier(e, params, v, i, n);
      }
    }
  }

  lemma NeededEarlier<V, W>(e: Execution<V, W>, params: set<Local>, v: Local, i: nat, n: nat)
    requires Needed(e, params, v, i + 1, n) && !e.WrittenAt(i, v)
    ensures Needed(e, params, v, i, n)
  {
    ReadLaterFromHere(e, v, i, n);
    if v !in params {
      WrittenBeforeHere(e, v, i);
    }
  }

  lemma ReadLaterFromHere<V, W>(e: Execution<V, W>, v: Local, i: nat, n: nat)
    requires e.ReadLater(i + 1, n, v)
    ensures e.ReadLater(i, n, v)
  {
    var j: nat :| i + 1 <= j < n && e.ReadAt(j, v);
    assert i <= j < n && e.ReadAt(j, v);
  }

  lemma WrittenBeforeHere<V, W>(e: Execution<V, W>, v: Local, i: nat)
    requires e.WrittenBefore(i + 1, v) && !e.WrittenAt(i, v)
    ensures e.WrittenBefore(i, v)
  {
    var k: nat :| k < i + 1 && e.WrittenAt(k, v);
    assert k < i && e.WrittenAt(k, v);
  }

  /** In any run whose locals are written before they are read, executing over allocated storage
      goes through the same control states and worlds, and reads the same values, as executing
      over locals. */
  lemma {:induction false} AllocationPreservesMeaning<V, W>(e: Execution<V, W>, e': Execution<V, W>,
      params: set<Local>, i: nat, n: nat)
    requires Allocates(e, e', params) && e.Legal(params, n) && i <= n
    ensures Agree(e, e', params, i, n)
    ensures forall pc: nat :: i < n && e.Executes(i, pc) ==>
      e.p.Values(e.p.Contents(pc), e'.rho, e'.State(i).1) == e.p.Values(e.p.Contents(pc), e.rho, e.State(i).1)
  {
    if i > 0 {
      AllocationPreservesMeaning(e, e', params, i - 1, n);
      StepAgrees(e, e', params, i - 1, n);
    }
    forall pc: nat | i < n && e.Executes(i, pc)
      ensures e.p.Values(e.p.Contents(pc), e'.rho, e'.State(i).1) == e.p.Values(e.p.Contents(pc), e.rho, e.State(i).1)
    {
      SameValues(e, e', params, i, n, pc);
    }
  }
}
