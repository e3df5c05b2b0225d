/** What the linear scans of both classes achieve together: locals in use together are kept apart. */
module Separation {
  import opened Icode
  import opened FlowGraph
  import opened Scc
  import opened Intervals
  import opened LinearScan
  import opened LinearScanAllocator
  import opened Registers
  import opened Machine
  import opened Allocation
  import ScanPolicy

  /** The cell that the storage of a local denotes. */
  function CellOf(place: map<Local, Storage>): Local -> Cell {
    v =>
      if v !in place then Name(v)
      else match place[v]
        case Register(r) => if v.FpVar? then FReg(r) else IReg(r)
        case Stack(s) => Slot(s)
        case _ => Name(v)
  }

  predicate OfClass(v: Local, fp: bool, num: nat) {
    if fp then v.FpVar? && v.id < num else v.IntVar? && v.id < num
  }

  // ----- One class -----

  /** The source of intervals has the occurrences in numbered components. */
  ghost predicate Numbers(q: Numbered, src: Source)
    requires q.Valid()
  {
    && |Vars(q.f)| == |q.scnOf| && Contents(Vars(q.f), q.scnOf, src.sccVars, src.scn)
    && (forall u: nat :: u < |q.scnOf| ==> q.scnOf[u] <= src.scn)
  }

  lemma SameOccurrences(q: Numbered, src: Source, v: Local, k: nat)
    requires q.Valid() && Numbers(q, src)
    ensures q.Occurs(v, k) <==> src.Occurs(v, k)
  {
  }

  /** The scan of one class: where its intervals come from, what was to be allocated, and the next
      stack slot afterwards. */
  datatype ClassScan = ClassScan(src: Source, job: Job, slot: nat) {

    /** The scan has allocated storage to the intervals of its class. */
    ghost predicate Done(q: Numbered, place: map<Local, Storage>) {
      && q.Valid() && Numbers(q, src)
      && src.AreHulls(job.lrs, job.first)
      && job.Allocated(StorageOf(job.lrs, job.first, place), slot)
      && (forall i: nat :: job.Index(i) ==> job.lrs[i].n in place)
    }

    ghost predicate ParamsAre(params: set<Local>) {
      |job.param| == |job.lrs| && forall i: nat :: job.Index(i) ==> (job.param[i] <==> job.lrs[i].n in params)
    }

    /** Storage on entry. */
    ghost predicate From(place: map<Local, Storage>) {
      |job.init| == |job.lrs|
      && forall i: nat :: job.Index(i) ==> job.lrs[i].n in place && job.init[i] == place[job.lrs[i].n]
    }

    /** The storage is what a scan with this policy decides on. */
    ghost predicate Decided(pol: ScanPolicy.Policy, place: map<Local, Storage>) {
      ScanPolicy.Outcome(job, pol, StorageOf(job.lrs, job.first, place), slot)
    }

    /** The allocator's state afterwards. */
    ghost function End(place: map<Local, Storage>): State {
      State(StorageOf(job.lrs, job.first, place), [], {}, slot)
    }
  }

  /** Storage of the other class does not matter. */
  lemma DoneKept(q: Numbered, c: ClassScan, place: map<Local, Storage>, place': map<Local, Storage>)
    requires c.Done(q, place)
    requires forall i: nat :: c.job.Index(i) ==>
      c.job.lrs[i].n in place && c.job.lrs[i].n in place' && place'[c.job.lrs[i].n] == place[c.job.lrs[i].n]
    ensures c.Done(q, place')
    ensures forall pol :: c.Decided(pol, place) ==> c.Decided(pol, place')
  {
    assert StorageOf(c.job.lrs, c.job.first, place) == StorageOf(c.job.lrs, c.job.first, place');
  }

  /** A local of the class that occurs has an interval. */
  lemma HasInterval(q: Numbered, c: ClassScan, place: map<Local, Storage>, v: Local, k: nat) returns (i: nat)
    requires c.Done(q, place) && OfClass(v, c.src.fp, c.src.num) && q.Occurs(v, k)
    ensures c.job.Index(i) && c.job.lrs[i].n == v && c.job.lrs[i].beg <= k <= c.job.lrs[i].end
  {
    SameOccurrences(q, c.src, v, k);
    assert Mk(c.src.fp, v.id) == v && c.src.Occurs(Mk(c.src.fp, v.id), k);
    i :| c.job.first <= i < |c.job.lrs| && c.job.lrs[i].n == v;
    assert c.src.IsHull(c.job.lrs[i]);
  }

  /** Locals of one class in use together have overlapping intervals. */
  lemma IntervalsMeet(q: Numbered, c: ClassScan, place: map<Local, Storage>, v: Local, w: Local)
      returns (i: nat, j: nat)
    requires c.Done(q, place) && OfClass(v, c.src.fp, c.src.num) && OfClass(w, c.src.fp, c.src.num)
    requires q.Together(v, w)
    ensures c.job.Index(i) && c.job.Index(j) && c.job.lrs[i].n == v && c.job.lrs[j].n == w
    ensures Overlap(c.job.lrs[i], c.job.lrs[j])
  {
    var a: nat, k: nat, b: nat :| a <= k <= b && q.Occurs(v, a) && q.Occurs(v, b) && q.Occurs(w, k);
    i := HasInterval(q, c, place, v, a);
    var i' := HasInterval(q, c, place, v, b);
    j := HasInterval(q, c, place, w, k);
    assert i == i';
  }

  /** Locals of one class in use together have different storage. */
  lemma ClassSeparated(q: Numbered, c: ClassScan, place: map<Local, Storage>, params: set<Local>, v: Local, w: Local)
    requires c.Done(q, place) && c.ParamsAre(params) && v !in params && w !in params
    requires OfClass(v, c.src.fp, c.src.num) && OfClass(w, c.src.fp, c.src.num) && v != w && q.Together(v, w)
    ensures CellOf(place)(v) != CellOf(place)(w)
  {
    var i, j := IntervalsMeet(q, c, place, v, w);
    var s := c.End(place);
    assert s.st[i] == place[v] && s.st[j] == place[w];
    StorageDiffers(c.job, s, i, j);
  }

  lemma StorageDiffers(job: Job, s: State, i: nat, j: nat)
    requires job.Valid() && |s.st| == |job.lrs| && job.NoClash(s, job.first) && job.Placed(s, job.first)
    requires job.Index(i) && job.Index(j) && i != j && Overlap(job.lrs[i], job.lrs[j])
    requires !job.param[i] && !job.param[j]
    ensures s.st[i] != s.st[j] && (s.st[i].Register? || s.st[i].Stack?) && (s.st[j].Register? || s.st[j].Stack?)
  {
    assert job.Apart(s, i, j) && job.SlotsDiffer(s, i, j) && job.Settled(s, i) && job.Settled(s, j);
  }

  /** Where a non-parameter that occurs ends up. */
  lemma ClassSettled(q: Numbered, c: ClassScan, place: map<Local, Storage>, params: set<Local>, v: Local, k: nat)
    requires c.Done(q, place) && c.ParamsAre(params) && v !in params
    requires OfClass(v, c.src.fp, c.src.num) && q.Occurs(v, k)
    ensures v in place
    ensures (place[v].Register? && place[v].r in c.job.pool0)
      || (place[v].Stack? && c.job.slot0 <= place[v].slot < c.slot)
  {
    var i := HasInterval(q, c, place, v, k);
    assert c.job.Settled(c.End(place), i) && c.End(place).st[i] == place[v];
  }

  // ----- Needless spills -----

  /** The locals of one class that a scan gets, those that are undecided on entry, and the free
      registers. */
  datatype Class = Class(fp: bool, num: nat, params: set<Local>, undecided: set<Local>, pool: set<nat>) {

    /** v competes for a register. */
    predicate Competes(v: Local) {
      OfClass(v, fp, num) && v !in params && v in undecided
    }

    /** At component p, more locals compete than there are registers. */
    ghost predicate Crowded(q: Numbered, p: nat)
      requires q.Valid()
    {
      exists S: set<Local> :: CrowdedBy(q, p, S)
    }

    ghost predicate CrowdedBy(q: Numbered, p: nat, S: set<Local>)
      requires q.Valid()
    {
      |S| > |pool| && forall v :: v in S ==> Competes(v) && Spans(q, v, p)
    }

    /** If it is never crowded, whatever competes and occurs gets a register. */
    ghost predicate NoNeedlessSpill(q: Numbered, place': map<Local, Storage>)
      requires q.Valid()
    {
      (forall p: nat :: !Crowded(q, p)) ==>
        forall v, k: nat {:trigger q.Occurs(v, k)} ::
          Competes(v) && q.Occurs(v, k) ==> v in place' && place'[v].Register? && place'[v].r in pool
    }

    /** Whatever occurs and is no parameter gets a register of the pool, if it competes, or a stack
        slot not below the given one. */
    ghost predicate Settles(q: Numbered, slot: nat, place': map<Local, Storage>)
      requires q.Valid()
    {
      forall v, k: nat {:trigger q.Occurs(v, k)} :: OfClass(v, fp, num) && v !in params && q.Occurs(v, k) ==>
        v in place' && SettledAt(v, slot, place'[v])
    }

    predicate SettledAt(v: Local, slot: nat, st: Storage) {
      match st
      case Register(r) => Competes(v) && r in pool
      case Stack(s) => slot <= s
      case _ => false
    }
  }

  /** Component p lies between two occurrences of v. */
  ghost predicate Spans(q: Numbered, v: Local, p: nat)
    requires q.Valid()
  {
    exists a: nat, b: nat :: a <= p <= b && q.Occurs(v, a) && q.Occurs(v, b)
  }

  function UndecidedIn(place: map<Local, Storage>): set<Local> {
    set v | v in place && place[v].Undecided?
  }

  /** The scan c was for the locals of class k, with storage place on entry. */
  ghost predicate ScanOf(c: ClassScan, k: Class, place: map<Local, Storage>) {
    && c.src.fp == k.fp && c.src.num == k.num && c.job.pool0 == k.pool && c.ParamsAre(k.params) && c.From(place)
    && k.undecided == UndecidedIn(place)
  }

  ghost function LocalsOf(job: Job, S: set<nat>): set<Local>
  {
    set i: nat | i in S && job.Index(i) :: job.lrs[i].n
  }

  lemma {:induction false} AsManyLocals(job: Job, S: set<nat>)
    requires forall i: nat :: i in S ==> job.Index(i)
    requires forall i: nat, j: nat ::
      i in S && j in S && job.Index(i) && job.Index(j) && job.lrs[i].n == job.lrs[j].n ==> i == j
    ensures |LocalsOf(job, S)| == |S|
    decreases S
  {
    if S != {} {
      var x :| x in S;
      AsManyLocals(job, S - {x});
      assert LocalsOf(job, S) == LocalsOf(job, S - {x}) + {job.lrs[x].n};
    }
  }

  /** A component that is crowded with intervals is crowded with locals. */
  lemma CrowdedLocals(q: Numbered, c: ClassScan, k: Class, place0: map<Local, Storage>, place: map<Local, Storage>,
      p: nat)
    requires c.Done(q, place) && ScanOf(c, k, place0) && c.job.Crowded(p)
    ensures k.Crowded(q, p)
  {
    var S: set<nat> :| c.job.CrowdedBy(p, S);
    AsManyLocals(c.job, S);
    var T := LocalsOf(c.job, S);
    forall v | v in T ensures k.Competes(v) && Spans(q, v, p) {
      var i :| i in S && c.job.lrs[i].n == v;
      IntervalSpans(q, c, place, i, p);
    }
    assert k.CrowdedBy(q, p, T);
  }

  lemma IntervalSpans(q: Numbered, c: ClassScan, place: map<Local, Storage>, i: nat, p: nat)
    requires c.Done(q, place) && c.job.Index(i) && c.job.lrs[i].beg <= p <= c.job.lrs[i].end
    ensures OfClass(c.job.lrs[i].n, c.src.fp, c.src.num) && Spans(q, c.job.lrs[i].n, p)
  {
    var lr := c.job.lrs[i];
    assert c.src.IsHull(lr);
    SameOccurrences(q, c.src, lr.n, lr.beg);
    SameOccurrences(q, c.src, lr.n, lr.end);
  }

  lemma ScanSpillsNoneNeedlessly(q: Numbered, c: ClassScan, k: Class, place0: map<Local, Storage>,
      place: map<Local, Storage>)
    requires c.Done(q, place) && ScanOf(c, k, place0)
    ensures k.NoNeedlessSpill(q, place)
  {
    if forall p: nat :: !k.Crowded(q, p) {
      forall p: nat ensures !c.job.Crowded(p) {
        if c.job.Crowded(p) {
          CrowdedLocals(q, c, k, place0, place, p);
        }
      }
      NoNeedlessSpills(c.job, c.End(place).st, c.slot);
      forall v, x: nat | k.Competes(v) && q.Occurs(v, x)
        ensures v in place && place[v].Register? && place[v].r in k.pool
      {
        var i := HasInterval(q, c, place, v, x);
        assert c.job.Candidate(i) && c.End(place).st[i] == place[v];
      }
    }
  }

  lemma ScanSettles(q: Numbered, c: ClassScan, k: Class, place0: map<Local, Storage>, place: map<Local, Storage>,
      slot: nat)
    requires c.Done(q, place) && ScanOf(c, k, place0) && slot <= c.job.slot0
    ensures k.Settles(q, slot, place)
  {
    forall v, x: nat | OfClass(v, k.fp, k.num) && v !in k.params && q.Occurs(v, x)
      ensures v in place && k.SettledAt(v, slot, place[v])
    {
      var i := HasInterval(q, c, place, v, x);
      assert c.job.Settled(c.End(place), i) && c.End(place).st[i] == place[v];
    }
  }

  // ----- Both classes -----

  predicate Bounded(v: Local, numI: nat, numF: nat) {
    OfClass(v, false, numI) || OfClass(v, true, numF)
  }

  /** The code mentions locals of both classes only. */
  ghost predicate AllBounded(code: seq<Insn>, numI: nat, numF: nat) {
    forall pc: nat, u :: pc < |code| && (Reads(code[pc], u) || Writes(code[pc], u)) ==> Bounded(u, numI, numF)
  }

  /** A parameter is in a register that is not free or in an older stack slot. */
  predicate ParamPlaced(p: Local, st: Storage, ifree: set<nat>, ffree: set<nat>, slot0: nat) {
    match st
    case Register(r) => r !in (if p.FpVar? then ffree else ifree)
    case Stack(s) => s < slot0
    case _ => false
  }

  /** Parameters sit in different cells, away from the free registers and fresh stack slots. */
  ghost predicate ParamsPlaced(params: set<Local>, place: map<Local, Storage>, ifree: set<nat>, ffree: set<nat>,
      slot0: nat)
  {
    && (forall p {:trigger p in params} ::
          p in params ==> p in place && p != Special && ParamPlaced(p, place[p], ifree, ffree, slot0))
    && (forall p, p' {:trigger p in params, p' in params} ::
          p in params && p' in params && p != p' ==> CellOf(place)(p) != CellOf(place)(p'))
  }

  lemma {:induction false} OccursBounded(q: Numbered, v: Local, k: nat, numI: nat, numF: nat)
    requires q.Valid() && q.Occurs(v, k) && AllBounded(q.code, numI, numF)
    ensures Bounded(v, numI, numF)
  {
    var pc := OccursMentioned(q, v, k);
  }

  /** The outcome of both scans, of the integer and the floating-point class. */
  ghost predicate BothDone(q: Numbered, ints: ClassScan, floats: ClassScan, place: map<Local, Storage>,
      params: set<Local>)
  {
    && ints.Done(q, place) && floats.Done(q, place)
    && !ints.src.fp && floats.src.fp && floats.job.slot0 == ints.slot
    && ints.ParamsAre(params) && floats.ParamsAre(params)
    && AllBounded(q.code, ints.src.num, floats.src.num)
  }

  lemma PairSeparated(q: Numbered, ints: ClassScan, floats: ClassScan, place: map<Local, Storage>, params: set<Local>,
      v: Local, w: Local)
    requires BothDone(q, ints, floats, place, params)
    requires v !in params && w !in params && v != w && q.Together(v, w)
    ensures CellOf(place)(v) != CellOf(place)(w)
  {
    var a: nat, k: nat, b: nat :| a <= k <= b && q.Occurs(v, a) && q.Occurs(v, b) && q.Occurs(w, k);
    OccursBounded(q, v, a, ints.src.num, floats.src.num);
    OccursBounded(q, w, k, ints.src.num, floats.src.num);
    if v.FpVar? && w.FpVar? {
      ClassSeparated(q, floats, place, params, v, w);
    } else if v.IntVar? && w.IntVar? {
      ClassSeparated(q, ints, place, params, v, w);
    } else if v.FpVar? {
      ClassesSeparated(q, ints, floats, place, params, w, k, v, a);
    } else {
      ClassesSeparated(q, ints, floats, place, params, v, a, w, k);
    }
  }

  /** An integer and a floating-point local. */
  lemma ClassesSeparated(q: Numbered, ints: ClassScan, floats: ClassScan, place: map<Local, Storage>,
      params: set<Local>, v: Local, a: nat, w: Local, b: nat)
    requires BothDone(q, ints, floats, place, params)
    requires v !in params && w !in params && OfClass(v, false, ints.src.num) && OfClass(w, true, floats.src.num)
    requires q.Occurs(v, a) && q.Occurs(w, b)
    ensures CellOf(place)(v) != CellOf(place)(w)
  {
    ClassSettled(q, ints, place, params, v, a);
    ClassSettled(q, floats, place, params, w, b);
  }

  lemma ParamSeparated(q: Numbered, ints: ClassScan, floats: ClassScan, place: map<Local, Storage>, params: set<Local>,
      p: Local, w: Local, k: nat)
    requires BothDone(q, ints, floats, place, params)
    requires ParamsPlaced(params, place, ints.job.pool0, floats.job.pool0, ints.job.slot0)
    requires p in params && p != w && q.Occurs(w, k)
    ensures CellOf(place)(p) != CellOf(place)(w)
  {
    OccursBounded(q, w, k, ints.src.num, floats.src.num);
    if w !in params {
      if w.FpVar? {
        ClassSettled(q, floats, place, params, w, k);
      } else {
        ClassSettled(q, ints, place, params, w, k);
      }
    }
  }

  /** Whatever may be in use together is kept apart. */
  lemma AllSeparated(q: Numbered, ints: ClassScan, floats: ClassScan, place: map<Local, Storage>, params: set<Local>)
    requires BothDone(q, ints, floats, place, params)
    requires ParamsPlaced(params, place, ints.job.pool0, floats.job.pool0, ints.job.slot0)
    ensures q.Separated(params, CellOf(place))
  {
    var rho := CellOf(place);
    forall v, w {:trigger q.Together(v, w)}
      | v !in params && w !in params && v != w && v != Special && w != Special && q.Together(v, w)
      ensures rho(v) != rho(w)
    {
      PairSeparated(q, ints, floats, place, params, v, w);
    }
    forall p, w | p in params && p != w && w != Special && p != Special && (exists k: nat :: q.Occurs(w, k))
      ensures rho(p) != rho(w)
    {
      var k: nat :| q.Occurs(w, k);
      ParamSeparated(q, ints, floats, place, params, p, w, k);
    }
  }
}
