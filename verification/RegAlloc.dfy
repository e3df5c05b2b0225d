/** The register-allocation driver: flow graph, components, intervals, linear scan. */
module RegAlloc {
  import opened Icode
  import opened FlowGraph
  import opened Scc
  import opened Intervals
  import opened LinearScan
  import opened LinearScanAllocator
  import opened Registers
  import opened Machine
  import opened Allocation
  import opened Separation
  import opened ScanPolicy

  // ----- What the driver is given -----

  /** Taking its address puts a local into the storage class of the stack. The number beside the
      class stays. */
  function Forced(st: Storage): Storage {
    match st
    case Undecided => InMemory
    case Register(r) => Stack(r)
    case _ => st
  }

  function ForceStack(place: map<Local, Storage>, onStack: set<Local>): map<Local, Storage> {
    map v | v in place :: if v in onStack then Forced(place[v]) else place[v]
  }

  /** The registers of class fp that parameters occupy. */
  function ParamRegs(params: seq<Local>, place: map<Local, Storage>, fp: bool): set<nat> {
    set p | p in params && p in place && p.FpVar? == fp && place[p].Register? :: place[p].r
  }

  /** The code, the locals of both classes, the parameters, where locals are, and the next stack
      slot. */
  datatype Unit =
    Unit(code: seq<Insn>, numI: nat, numF: nat, params: seq<Local>, place: map<Local, Storage>, slot: nat)
  {

    ghost predicate Valid() {
      && WellFormed(code) && AllBounded(code, numI, numF)
      && (forall id: nat :: id < numI ==> IntVar(id) in place)
      && (forall id: nat :: id < numF ==> FpVar(id) in place)
      && (forall p :: p in params ==> p in place)
      && (forall v :: v in place && v !in params ==> place[v].Undecided? || place[v].InMemory?)
    }

    function ParamSet(): set<Local> {
      set p | p in params
    }

    /** Some instruction takes the address of v. */
    ghost predicate Addressed(v: Local) {
      v != Special && exists pc: nat :: pc < |code| && code[pc].Lea? && code[pc].src == v
    }

    /** Parameters have been put into different registers, or stack slots below the next. */
    ghost predicate ParamsIn() {
      && (forall p {:trigger p in params} :: p in params ==> p != Special && ParamIn(p))
      && (forall p, p' {:trigger p in params, p' in params} ::
            p in params && p' in params && p != p' ==> CellOf(place)(p) != CellOf(place)(p'))
    }

    predicate ParamIn(p: Local) {
      p in place && (place[p].Register? || (place[p].Stack? && place[p].slot < slot))
    }

    /** The address of a parameter in a register is not taken. */
    ghost predicate Kept() {
      forall p :: p in params && Addressed(p) && p in place ==> !place[p].Register?
    }

    /** The registers of class fp that stay with parameters. */
    ghost function Held(fp: bool): set<nat> {
      set p | p in params && p in place && p.FpVar? == fp && place[p].Register? && !Addressed(p) :: place[p].r
    }

    /** The locals of a class, when pool are its free registers on entry. A local that has its address
        taken is not undecided. */
    ghost function ClassOf(fp: bool, pool: set<nat>): Class {
      Class(fp, if fp then numF else numI, ParamSet(),
        (set v | v in place && place[v].Undecided? && !Addressed(v)), pool - Held(fp))
    }

    /** Where a parameter is looked for: where it was put, unless its address is taken. */
    ghost predicate ParamAt(p: Local, st: Storage)
      requires p in place
    {
      match place[p]
      case Register(r) => st == if Addressed(p) then Stack(r) else Register(r)
      case Undecided => st == if Addressed(p) then InMemory else Undecided
      case _ => st == place[p]
    }

    /** A local that occurs and is no parameter is in a register, unless its address is taken or it
        was to be in memory, or else in a new stack slot. */
    ghost predicate LocalAt(v: Local, st: Storage) {
      match st
      case Register(_) => v in place && place[v].Undecided? && !Addressed(v)
      case Stack(s) => slot <= s
      case _ => false
    }

    /** What register allocation promises. */
    ghost predicate Outcome(place': map<Local, Storage>, q: Numbered) {
      && q.code == code && q.Valid()
      && (forall p :: p in params && p in place ==> p in place' && ParamAt(p, place'[p]))
      && (forall v, k: nat {:trigger q.Occurs(v, k)} ::
            v !in params && q.Occurs(v, k) ==> v in place' && LocalAt(v, place'[v]))
      && (ParamsIn() && Kept() ==> q.Separated(ParamSet(), CellOf(place')))
    }

    // ----- What the driver works with -----

    function OnStack(): set<Local> {
      AddressTaken(code, |code|)
    }

    /** Where locals are once the flow graph has been built. */
    function Place1(): map<Local, Storage> {
      ForceStack(place, OnStack())
    }
  }

  // ----- Storage on entry -----

  lemma {:induction false} AddressTakenIff(code: seq<Insn>, n: nat, v: Local)
    requires n <= |code|
    ensures v in AddressTaken(code, n) <==>
      v != Special && exists pc: nat :: pc < n && code[pc].Lea? && code[pc].src == v
  {
    if n > 0 {
      AddressTakenIff(code, n - 1, v);
    }
  }

  /** The storage that the driver enters is that on entry, for those whose address is not taken. */
  lemma EnteredAt(u: Unit, v: Local)
    requires v in u.place
    ensures v in u.Place1() && u.ParamAt(v, u.Place1()[v])
  {
    AddressTakenIff(u.code, |u.code|, v);
  }

  lemma ClassEntered(u: Unit, fp: bool, pool: set<nat>)
    ensures u.ClassOf(fp, pool) == Class(fp, if fp then u.numF else u.numI, u.ParamSet(), UndecidedIn(u.Place1()),
      pool - ParamRegs(u.params, u.Place1(), fp))
    ensures u.Held(fp) == ParamRegs(u.params, u.Place1(), fp)
  {
    forall v | v in u.place ensures v in u.Place1() && u.ParamAt(v, u.Place1()[v]) {
      EnteredAt(u, v);
    }
    HeldEntered(u, fp);
  }

  lemma HeldEntered(u: Unit, fp: bool)
    requires forall v :: v in u.place ==> v in u.Place1() && u.ParamAt(v, u.Place1()[v])
    ensures u.Held(fp) == ParamRegs(u.params, u.Place1(), fp)
  {
    forall r ensures r in u.Held(fp) <==> r in ParamRegs(u.params, u.Place1(), fp) {
      if r in u.Held(fp) {
        var p :| p in u.params && p in u.place && p.FpVar? == fp && u.place[p].Register? && !u.Addressed(p)
          && u.place[p].r == r;
        assert u.Place1()[p] == Register(r);
      }
    }
  }

  // ----- Steps of the driver -----

  /** Withdraw the registers of the parameters from the pools. */
  method WithdrawParams(params: seq<Local>, place: map<Local, Storage>, iregs: RegPool, fregs: RegPool)
    requires iregs != fregs && forall p :: p in params ==> p in place
    modifies iregs`free, fregs`free
    ensures iregs.free == old(iregs.free) - ParamRegs(params, place, false)
    ensures fregs.free == old(fregs.free) - ParamRegs(params, place, true)
  {
    for i := 0 to |params|
      invariant iregs.free == old(iregs.free) - ParamRegs(params[..i], place, false)
      invariant fregs.free == old(fregs.free) - ParamRegs(params[..i], place, true)
    {
      var p := params[i];
      assert params[..i + 1] == params[..i] + [p];
      if place[p].Register? {
        if p.FpVar? {
          fregs.Use(place[p].r);
        } else {
          iregs.Use(place[p].r);
        }
      }
      MoreParamRegs(params[..i], p, place, false);
      MoreParamRegs(params[..i], p, place, true);
    }
    assert params[..|params|] == params;
  }

  lemma MoreParamRegs(params: seq<Local>, p: Local, place: map<Local, Storage>, fp: bool)
    requires p in place
    ensures ParamRegs(params + [p], place, fp) ==
      ParamRegs(params, place, fp) + (if p.FpVar? == fp && place[p].Register? then {place[p].r} else {})
  {
  }

  /** Components of a flow graph, numbered. */
  method NumberComponents(code: seq<Insn>, f: Flow) returns (q: Numbered, sccVars: seq<set<Local>>, scn: nat)
    requires WellFormed(code) && f.Of(code)
    ensures q.code == code && q.f == f && q.Valid() && |Vars(f)| == |q.scnOf|
    ensures Contents(Vars(f), q.scnOf, sccVars, scn)
    ensures forall u: nat :: u < |q.scnOf| ==> q.scnOf[u] <= scn
    ensures forall x: nat, y: nat ::
      x < |q.scnOf| && y < |q.scnOf| && f.g.Reaches(0, x) && f.g.Reaches(0, y) ==>
        (q.scnOf[x] == q.scnOf[y] <==> f.g.Mutual(x, y))
  {
    var finder := new SccFinder(f.g, Vars(f));
    finder.NumberBlocks();
    ghost var order := finder.Done();
    finder.MarkComponents();
    q := Numbered(code, f, finder.scnOf);
    sccVars, scn := finder.sccVars, finder.scn;
  }

  /** The intervals of one class. */
  method ClassIntervals(src: Source) returns (lrs: seq<Interval>, first: nat)
    requires src.scn < |src.sccVars|
    ensures src.AreHulls(lrs, first)
  {
    var scan := new IntervalScan(src);
    scan.Scan();
    lrs, first := scan.lrs, scan.cur + 1;
  }

  ghost function JobFor(lrs: seq<Interval>, first: nat, params: set<Local>, place: map<Local, Storage>, pool: set<nat>,
      slot: nat): Job
  {
    var param := seq(|lrs|, i requires 0 <= i < |lrs| => lrs[i].n in params);
    Job(lrs, first, param, StorageOf(lrs, first, place), pool, slot)
  }

  /** All locals of the class are in the table; those that are no parameters have no storage yet. */
  ghost predicate ClassReady(src: Source, params: set<Local>, place: map<Local, Storage>) {
    forall id: nat :: id < src.num ==>
      var v := Mk(src.fp, id);
      v in place && (v !in params ==> place[v].Undecided? || place[v].InMemory?)
  }

  lemma JobValid(src: Source, lrs: seq<Interval>, first: nat, params: set<Local>, place: map<Local, Storage>,
      pool: set<nat>, slot: nat)
    requires src.AreHulls(lrs, first) && ClassReady(src, params, place)
    ensures JobFor(lrs, first, params, place, pool, slot).Valid()
    ensures forall i: nat :: first <= i < |lrs| ==> lrs[i].n in place && OfClass(lrs[i].n, src.fp, src.num)
  {
    forall i: nat | first <= i < |lrs|
      ensures lrs[i].n in place && OfClass(lrs[i].n, src.fp, src.num) && lrs[i].beg <= lrs[i].end
      ensures lrs[i].n !in params ==> place[lrs[i].n].Undecided? || place[lrs[i].n].InMemory?
    {
      assert src.IsHull(lrs[i]);
      var id: nat :| id < src.num && lrs[i].n == Mk(src.fp, id);
    }
  }

  /** Storage of locals outside the class, and of parameters, is as it was. */
  ghost predicate OnlyClass(fp: bool, num: nat, params: set<Local>, place: map<Local, Storage>,
      place': map<Local, Storage>) {
    forall v :: v in place ==> v in place' && (place'[v] == place[v] || (v !in params && OfClass(v, fp, num)))
  }

  /** How one class is scanned: by counts, if asked for, and with the registers of its pool that suit the
      function. */
  ghost function PolicyFor(lrs: seq<Interval>, refcnt: Local -> real, useCounts: bool, regs: RegPool): Policy {
    Policy(useCounts, seq(|lrs|, i requires 0 <= i < |lrs| => refcnt(lrs[i].n)),
      if regs.leaf then regs.tmps else regs.vars)
  }

  /** Linear scan over the intervals of one class. */
  method ScanClass(src: Source, params: set<Local>, refcnt: Local -> real, useCounts: bool, regs: RegPool,
      place0: map<Local, Storage>, slot0: nat, ghost q: Numbered)
    returns (place: map<Local, Storage>, slot: nat, ghost c: ClassScan)
    requires q.Valid() && Numbers(q, src) && (forall v :: refcnt(v) >= 0.0)
    requires ClassReady(src, params, place0) && (src.num > 0 ==> 2 <= |regs.free|)
    modifies regs`free
    ensures c.src == src && c.slot == slot && c.job.pool0 == old(regs.free) && c.job.slot0 == slot0
    ensures c.Done(q, place) && c.ParamsAre(params) && c.From(place0)
    ensures c.Decided(PolicyFor(c.job.lrs, refcnt, useCounts, regs), place)
    ensures OnlyClass(src.fp, src.num, params, place0, place)
  {
    var lrs, first := ClassIntervals(src);
    ghost var job := JobFor(lrs, first, params, place0, regs.free, slot0);
    JobValid(src, lrs, first, params, place0, regs.free, slot0);
    SomeLocal(src, lrs, first);
    place, slot := ScanTable(lrs, first, src.num > 0, params, refcnt, useCounts, regs, place0, slot0, job);
    JobDone(q, src, lrs, first, params, place0, job.pool0, slot0, place, slot);
    c := ClassScan(src, job, slot);
  }

  /** A class that has an interval has a local. */
  lemma SomeLocal(src: Source, lrs: seq<Interval>, first: nat)
    requires src.AreHulls(lrs, first)
    ensures first <= |lrs| && (first < |lrs| ==> 0 < src.num)
  {
    if first < |lrs| {
      assert src.IsHull(lrs[first]);
    }
  }

  /** Linear scan over a table of intervals, if there can be any. */
  method ScanTable(lrs: seq<Interval>, first: nat, any: bool, params: set<Local>, refcnt: Local -> real,
      useCounts: bool, regs: RegPool, place0: map<Local, Storage>, slot0: nat, ghost job: Job)
    returns (place: map<Local, Storage>, slot: nat)
    requires job == JobFor(lrs, first, params, place0, regs.free, slot0) && job.Valid()
    requires forall i: nat :: first <= i < |lrs| ==> lrs[i].n in place0 && refcnt(lrs[i].n) >= 0.0
    requires forall i: nat, j: nat :: first <= i < j < |lrs| ==> lrs[i].n != lrs[j].n
    requires if any then 2 <= |regs.free| else first == |lrs|
    modifies regs`free
    ensures job.Allocated(StorageOf(lrs, first, place), slot)
    ensures ScanPolicy.Outcome(job, PolicyFor(lrs, refcnt, useCounts, regs), StorageOf(lrs, first, place), slot)
    ensures forall v :: v in place0 ==>
      && v in place
      && (place[v] == place0[v] || (v !in params && exists i: nat :: first <= i < |lrs| && lrs[i].n == v))
  {
    var alloc := new Allocator(lrs, first, params, refcnt, useCounts, regs, place0, slot0);
    if any {
      assert alloc.Pol() == PolicyFor(lrs, refcnt, useCounts, regs);
      alloc.Run(job);
    } else {
      Begin(job, regs.free);
      Finish(job, LinearScan.State(job.init, [], regs.free, slot0));
      NothingScanned(job, PolicyFor(lrs, refcnt, useCounts, regs));
    }
    place, slot := alloc.place, alloc.slot;
  }

  lemma NothingScanned(job: Job, pol: Policy)
    requires job.first == |job.lrs|
    ensures ScanPolicy.Outcome(job, pol, job.init, job.slot0)
  {
    assert IsScan(job, pol, [LinearScan.State(job.init, [], job.pool0, job.slot0)]);
  }

  /** What the scan of one class has achieved, once its job is done. */
  lemma JobDone(q: Numbered, src: Source, lrs: seq<Interval>, first: nat, params: set<Local>,
      place0: map<Local, Storage>, pool: set<nat>, slot0: nat, place: map<Local, Storage>, slot: nat)
    requires q.Valid() && Numbers(q, src) && src.AreHulls(lrs, first) && ClassReady(src, params, place0)
    requires var job := JobFor(lrs, first, params, place0, pool, slot0);
      job.Allocated(StorageOf(lrs, first, place), slot)
    requires forall v :: v in place0 ==>
      && v in place
      && (place[v] == place0[v] || (v !in params && exists i: nat :: first <= i < |lrs| && lrs[i].n == v))
    ensures var c := ClassScan(src, JobFor(lrs, first, params, place0, pool, slot0), slot);
      c.Done(q, place) && c.ParamsAre(params) && c.From(place0)
    ensures OnlyClass(src.fp, src.num, params, place0, place)
  {
    JobValid(src, lrs, first, params, place0, pool, slot0);
  }

  /** Linear scan for both classes, in a numbered flow graph. */
  method ScanBoth(sccVars: seq<set<Local>>, scn: nat, numI: nat, numF: nat, params: set<Local>,
      refcnt: Local -> real, useCounts: bool, iregs: RegPool, fregs: RegPool,
      place0: map<Local, Storage>, slot0: nat, ghost q: Numbered)
    returns (place: map<Local, Storage>, ghost ints: ClassScan, ghost floats: ClassScan)
    requires q.Valid() && AllBounded(q.code, numI, numF) && iregs != fregs && (forall v :: refcnt(v) >= 0.0)
    requires Numbers(q, Source(sccVars, scn, false, numI))
    requires ClassReady(Source(sccVars, scn, false, numI), params, place0) && (numI > 0 ==> 2 <= |iregs.free|)
    requires ClassReady(Source(sccVars, scn, true, numF), params, place0) && (numF > 0 ==> 2 <= |fregs.free|)
    modifies iregs`free, fregs`free
    ensures BothDone(q, ints, floats, place, params)
    ensures ScanOf(ints, Class(false, numI, params, UndecidedIn(place0), old(iregs.free)), place0)
    ensures ScanOf(floats, Class(true, numF, params, UndecidedIn(place0), old(fregs.free)), place0)
    ensures ints.job.slot0 == slot0 <= floats.job.slot0
    ensures ints.Decided(PolicyFor(ints.job.lrs, refcnt, useCounts, iregs), place)
    ensures floats.Decided(PolicyFor(floats.job.lrs, refcnt, useCounts, fregs), place)
    ensures forall p :: p in params && p in place0 ==> p in place && place[p] == place0[p]
  {
    var srcI, srcF := Source(sccVars, scn, false, numI), Source(sccVars, scn, true, numF);
    var place1, slot1, slot2;
    place1, slot1, ints := ScanClass(srcI, params, refcnt, useCounts, iregs, place0, slot0, q);
    OtherClassReady(srcI, srcF, params, place0, place1);
    place, slot2, floats := ScanClass(srcF, params, refcnt, useCounts, fregs, place1, slot1, q);
    BothKept(q, ints, floats, params, place0, place1, place);
  }

  /** Scanning the integer locals does not touch the others. */
  lemma OtherClassReady(srcI: Source, srcF: Source, params: set<Local>, place0: map<Local, Storage>,
      place1: map<Local, Storage>)
    requires !srcI.fp && srcF.fp && ClassReady(srcF, params, place0)
    requires OnlyClass(false, srcI.num, params, place0, place1)
    ensures ClassReady(srcF, params, place1)
  {
  }

  lemma BothKept(q: Numbered, ints: ClassScan, floats: ClassScan, params: set<Local>, place0: map<Local, Storage>,
      place1: map<Local, Storage>, place: map<Local, Storage>)
    requires ints.Done(q, place1) && ints.From(place0) && !ints.src.fp
    requires floats.Done(q, place) && floats.From(place1) && floats.src.fp
    requires ClassReady(floats.src, params, place0)
    requires OnlyClass(false, ints.src.num, params, place0, place1)
    requires OnlyClass(true, floats.src.num, params, place1, place)
    ensures ints.Done(q, place) && floats.From(place0)
    ensures forall pol :: ints.Decided(pol, place1) ==> ints.Decided(pol, place)
  {
    forall i: nat | ints.job.Index(i)
      ensures ints.job.lrs[i].n in place1 && ints.job.lrs[i].n in place
        && place[ints.job.lrs[i].n] == place1[ints.job.lrs[i].n]
    {
      assert ints.src.IsHull(ints.job.lrs[i]);
    }
    DoneKept(q, ints, place1, place);
    forall i: nat | floats.job.Index(i)
      ensures floats.job.lrs[i].n in place0 && place0[floats.job.lrs[i].n] == place1[floats.job.lrs[i].n]
    {
      assert floats.src.IsHull(floats.job.lrs[i]);
      var id: nat :| id < floats.src.num && floats.job.lrs[i].n == Mk(true, id);
      assert floats.job.lrs[i].n in place0;
    }
  }

  // ----- The driver -----

  /** Allocate registers and stack slots for all locals of the code. */
  method AllocateRegisters(u: Unit, refcnt: Local -> real, useCounts: bool, iregs: RegPool, fregs: RegPool)
    returns (place: map<Local, Storage>, q: Numbered, ghost ints: ClassScan, ghost floats: ClassScan)
    requires u.Valid() && iregs != fregs && (forall v :: refcnt(v) >= 0.0)
    requires u.numI > 0 ==> 2 <= |iregs.free - u.Held(false)|
    requires u.numF > 0 ==> 2 <= |fregs.free - u.Held(true)|
    modifies iregs`free, fregs`free
    ensures u.Outcome(place, q)
    ensures u.ClassOf(false, old(iregs.free)).Settles(q, u.slot, place)
    ensures u.ClassOf(true, old(fregs.free)).Settles(q, u.slot, place)
    ensures u.ClassOf(false, old(iregs.free)).NoNeedlessSpill(q, place)
    ensures u.ClassOf(true, old(fregs.free)).NoNeedlessSpill(q, place)
    ensures BothDone(q, ints, floats, place, u.ParamSet())
    ensures ScanOf(ints, u.ClassOf(false, old(iregs.free)), u.Place1()) && ints.job.slot0 == u.slot
    ensures ScanOf(floats, u.ClassOf(true, old(fregs.free)), u.Place1())
    ensures ints.Decided(PolicyFor(ints.job.lrs, refcnt, useCounts, iregs), place)
    ensures floats.Decided(PolicyFor(floats.job.lrs, refcnt, useCounts, fregs), place)
  {
    var builder := new Builder(u.code);
    var f := builder.Build();
    var place1 := ForceStack(u.place, builder.onStack);
    WithdrawParams(u.params, place1, iregs, fregs);
    var sccVars, scn;
    q, sccVars, scn := NumberComponents(u.code, f);
    UnitReady(u, Source(sccVars, scn, false, u.numI));
    UnitReady(u, Source(sccVars, scn, true, u.numF));
    ClassEntered(u, false, old(iregs.free));
    ClassEntered(u, true, old(fregs.free));
    place, ints, floats :=
      ScanBoth(sccVars, scn, u.numI, u.numF, u.ParamSet(), refcnt, useCounts, iregs, fregs, place1, u.slot, q);
    UnitDone(u, q, ints, floats, old(iregs.free), old(fregs.free), place);
  }

  /** What both scans have achieved for the unit. */
  lemma UnitDone(u: Unit, q: Numbered, ints: ClassScan, floats: ClassScan, ifree: set<nat>, ffree: set<nat>,
      place: map<Local, Storage>)
    requires u.Valid() && q.code == u.code && BothDone(q, ints, floats, place, u.ParamSet())
    requires ints.job.slot0 == u.slot <= floats.job.slot0
    requires ScanOf(ints, u.ClassOf(false, ifree), u.Place1()) && ScanOf(floats, u.ClassOf(true, ffree), u.Place1())
    requires forall p :: p in u.params ==> p in place && place[p] == u.Place1()[p]
    ensures u.Outcome(place, q)
    ensures u.ClassOf(false, ifree).Settles(q, u.slot, place) && u.ClassOf(true, ffree).Settles(q, u.slot, place)
    ensures u.ClassOf(false, ifree).NoNeedlessSpill(q, place) && u.ClassOf(true, ffree).NoNeedlessSpill(q, place)
  {
    ScanSettles(q, ints, u.ClassOf(false, ifree), u.Place1(), place, u.slot);
    ScanSettles(q, floats, u.ClassOf(true, ffree), u.Place1(), place, u.slot);
    ScanSpillsNoneNeedlessly(q, ints, u.ClassOf(false, ifree), u.Place1(), place);
    ScanSpillsNoneNeedlessly(q, floats, u.ClassOf(true, ffree), u.Place1(), place);
    UnitSettled(u, q, ifree, ffree, place);
    forall p | p in u.params && p in u.place ensures p in place && u.ParamAt(p, place[p]) {
      EnteredAt(u, p);
    }
    UnitSeparated(u, q, ints, floats, place);
  }

  lemma UnitSettled(u: Unit, q: Numbered, ifree: set<nat>, ffree: set<nat>, place: map<Local, Storage>)
    requires q.Valid() && AllBounded(q.code, u.numI, u.numF)
    requires u.ClassOf(false, ifree).Settles(q, u.slot, place) && u.ClassOf(true, ffree).Settles(q, u.slot, place)
    ensures forall v, k: nat {:trigger q.Occurs(v, k)} ::
      v !in u.params && q.Occurs(v, k) ==> v in place && u.LocalAt(v, place[v])
  {
    forall v, k: nat | v !in u.params && q.Occurs(v, k) ensures v in place && u.LocalAt(v, place[v]) {
      OccursBounded(q, v, k, u.numI, u.numF);
      var c := if v.FpVar? then u.ClassOf(true, ffree) else u.ClassOf(false, ifree);
      assert OfClass(v, c.fp, c.num) && c.SettledAt(v, u.slot, place[v]);
    }
  }

  lemma UnitReady(u: Unit, src: Source)
    requires u.Valid() && src.num == if src.fp then u.numF else u.numI
    ensures ClassReady(src, u.ParamSet(), u.Place1())
  {
  }

  lemma UnitSeparated(u: Unit, q: Numbered, ints: ClassScan, floats: ClassScan, place: map<Local, Storage>)
    requires u.Valid() && BothDone(q, ints, floats, place, u.ParamSet()) && ints.job.slot0 == u.slot
    requires ints.job.pool0 !! u.Held(false) && floats.job.pool0 !! u.Held(true)
    requires forall p :: p in u.params ==> p in place && u.ParamAt(p, place[p])
    ensures u.ParamsIn() && u.Kept() ==> q.Separated(u.ParamSet(), CellOf(place))
  {
    if u.ParamsIn() && u.Kept() {
      ParamsStay(u, place);
      forall p | p in u.params
        ensures ParamPlaced(p, place[p], ints.job.pool0, floats.job.pool0, ints.job.slot0)
      {
        assert u.ParamIn(p) && place[p] == u.place[p];
      }
      AllSeparated(q, ints, floats, place, u.ParamSet());
    }
  }

  // ----- Parameters whose address is taken -----

  lemma ParamsStay(u: Unit, place: map<Local, Storage>)
    requires u.ParamsIn() && u.Kept()
    requires forall p :: p in u.params ==> p in place && u.ParamAt(p, place[p])
    ensures forall p :: p in u.params ==> place[p] == u.place[p]
  {
    forall p | p in u.params ensures place[p] == u.place[p] {
      assert u.ParamIn(p);
    }
  }

  /** Every parameter is read where its value has been put exactly when no parameter in a register
      has its address taken. */
  lemma ParamsStayIff(u: Unit, place: map<Local, Storage>, q: Numbered)
    requires u.ParamsIn() && u.Outcome(place, q)
    ensures (forall p :: p in u.params ==> CellOf(place)(p) == CellOf(u.place)(p)) <==> u.Kept()
  {
    forall p | p in u.params ensures p in u.place && p in place && u.ParamAt(p, place[p]) {
      assert u.ParamIn(p);
    }
    if u.Kept() {
      ParamsStay(u, place);
    } else {
      var p :| p in u.params && u.Addressed(p) && p in u.place && u.place[p].Register?;
      assert CellOf(place)(p) == Slot(u.place[p].r) != CellOf(u.place)(p);
    }
  }

  /** A parameter in register 5 whose address is taken is looked for in stack slot 5. */
  lemma {:induction false} AddressedParamExample(u: Unit, place: map<Local, Storage>, q: Numbered)
    requires u.code == [Lea(IntVar(0), IntVar(1)), Ret([IntVar(0)])] && u.numI == 2 && u.numF == 0
    requires u.params == [IntVar(0)] && u.place == map[IntVar(0) := Register(5), IntVar(1) := Undecided]
    requires u.Outcome(place, q)
    ensures u.Valid() && u.ParamsIn() && !u.Kept()
    ensures CellOf(u.place)(IntVar(0)) == IReg(5) && CellOf(place)(IntVar(0)) == Slot(5)
  {
    assert u.code[0].Lea? && u.code[0].src == IntVar(0);
    assert u.Addressed(IntVar(0));
    assert u.params[0] == IntVar(0);
  }

  // ----- The theorem -----

  /** The run with every local under its own name. */
  ghost function NamedRun<V, W>(q: Numbered, p: Program<V, W>, world: W, store: Cell -> V): Execution<V, W> {
    Execution(q, p, v => Name(v), world, store)
  }

  /** The run with every local in its register or stack slot. */
  ghost function PlacedRun<V, W>(q: Numbered, p: Program<V, W>, place: map<Local, Storage>, world: W, store: Cell -> V)
    : Execution<V, W>
  {
    Execution(q, p, CellOf(place), world, store)
  }

  /** Unless the address of a parameter in a register is taken: for what the driver returns, and any
      run in which locals are written before they are read, with parameters where they were put on
      entry, executing over registers and stack slots reads the values that executing over locals
      reads, at the same instructions and with the same world. */
  lemma AllocatedRunAgrees<V, W>(u: Unit, place: map<Local, Storage>, q: Numbered, p: Program<V, W>, world: W,
      store: Cell -> V, store': Cell -> V, i: nat, n: nat)
    requires u.Outcome(place, q) && u.ParamsIn() && u.Kept() && p.code == u.code && i <= n
    requires forall v :: v in u.params ==> store'(CellOf(u.place)(v)) == store(Name(v))
    requires NamedRun(q, p, world, store).Legal(u.ParamSet(), n)
    ensures var e, e' := NamedRun(q, p, world, store), PlacedRun(q, p, place, world, store');
      && e'.State(i).0 == e.State(i).0
      && forall pc: nat :: i < n && e.Executes(i, pc) ==>
        p.Values(p.Contents(pc), e'.rho, e'.State(i).1) == p.Values(p.Contents(pc), e.rho, e.State(i).1)
  {
    var e, e' := NamedRun(q, p, world, store), PlacedRun(q, p, place, world, store');
    ParamsStayIff(u, place, q);
    assert Allocates(e, e', u.ParamSet());
    AllocationPreservesMeaning(e, e', u.ParamSet(), i, n);
  }
}
