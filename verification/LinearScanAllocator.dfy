/** Linear-scan register allocation: the allocator itself. */
module LinearScanAllocator {
  import opened Icode
  import opened Intervals
  import opened LinearScan
  import opened Registers
  import opened ScanPolicy
  import Ring

  /** The storage of every interval's local; unused table entries count as undecided. */
  ghost function StorageOf(lrs: seq<Interval>, first: nat, place: map<Local, Storage>): (st: seq<Storage>)
    ensures |st| == |lrs|
  {
    seq(|lrs|, i requires 0 <= i < |lrs| => if i < first || lrs[i].n !in place then Undecided else place[lrs[i].n])
  }

  lemma StorageUpdate(lrs: seq<Interval>, first: nat, place: map<Local, Storage>, c: nat, x: Storage)
    requires first <= c < |lrs| && forall i: nat :: first <= i < |lrs| && i != c ==> lrs[i].n != lrs[c].n
    ensures StorageOf(lrs, first, place[lrs[c].n := x]) == StorageOf(lrs, first, place)[c := x]
  {
  }

  class Allocator {
    const lrs: seq<Interval>            // the intervals are lrs[first..]
    const first: nat
    const params: set<Local>
    const refcnt: Local -> real      // estimated reference counts
    const useCounts: bool               // spill by reference count, or the earliest start
    const regs: RegPool
    var place: map<Local, Storage>
    var slot: nat                       // next stack slot

    constructor (lrs: seq<Interval>, first: nat, params: set<Local>, refcnt: Local -> real, useCounts: bool,
        regs: RegPool, place: map<Local, Storage>, slot: nat)
      ensures this.lrs == lrs && this.first == first && this.params == params && this.refcnt == refcnt
      ensures this.useCounts == useCounts && this.regs == regs && this.place == place && this.slot == slot
    {
      this.lrs, this.first, this.params, this.refcnt := lrs, first, params, refcnt;
      this.useCounts, this.regs, this.place, this.slot := useCounts, regs, place, slot;
    }

    ghost function Pol(): Policy {
      Policy(useCounts, seq(|lrs|, i requires 0 <= i < |lrs| => Count(i)), if regs.leaf then regs.tmps else regs.vars)
    }

    ghost predicate Tables()
      reads this
    {
      && first <= |lrs|
      && (forall i: nat :: first <= i < |lrs| ==> lrs[i].n in place && refcnt(lrs[i].n) >= 0.0)
      && (forall i: nat, j: nat :: first <= i < j < |lrs| ==> lrs[i].n != lrs[j].n)
    }

    ghost function Snap(active: Ring.List): State
      requires active.Valid()
      reads this, regs, active
    {
      State(StorageOf(lrs, first, place), active.Items(), regs.free, slot)
    }

    /** `job` describes what was to be allocated. */
    ghost predicate For(job: Job)
      reads this
    {
      && job.lrs == lrs && job.first == first && Tables()
      && |job.param| == |lrs| && (forall i: nat :: first <= i < |lrs| ==> (job.param[i] <==> lrs[i].n in params))
    }

    ghost predicate Ready(active: Ring.List, job: Job, done: nat)
      reads this, regs, active
    {
      && active.Valid() && active.sz == |job.pool0|
      && For(job) && job.Inv(Snap(active), done)
    }

    /** Put the local of interval c on the stack. */
    method Spill(c: nat)
      requires Tables() && first <= c < |lrs|
      modifies this`place, this`slot
      ensures Tables() && slot == old(slot) + 1
      ensures place == old(place)[lrs[c].n := Stack(old(slot))]
      ensures StorageOf(lrs, first, place) == StorageOf(lrs, first, old(place))[c := Stack(old(slot))]
    {
      StorageUpdate(lrs, first, place, c, Stack(slot));
      place := place[lrs[c].n := Stack(slot)];
      slot := slot + 1;
    }

    /** Retire e, the last active element, if its interval starts after component pos. */
    method ExpireOne(active: Ring.List, e: nat, c: nat, ghost job: Job) returns (stop: bool)
      requires Ready(active, job, c + 1) && first <= c < |lrs|
      requires |active.Used| > 0 && e == active.Used[|active.Used| - 1]
      modifies regs`free, active
      ensures Ready(active, job, c + 1)
      ensures stop ==> active.Used == old(active.Used) && Snap(active) == old(Snap(active))
      ensures stop ==> job.Current(Snap(active), c)
      ensures !stop ==> active.Used == old(active.Used)[..|old(active.Used)| - 1]
      ensures !stop ==>
        var s := old(Snap(active)); var k := |s.act| - 1;
        && s.act[k] < |lrs| && lrs[c].end < lrs[s.act[k]].beg && s.st[s.act[k]].Register?
        && Snap(active) == s.(act := s.act[..k], pool := s.pool + {s.st[s.act[k]].r})
    {
      ghost var k := |active.Used| - 1;
      ghost var s := Snap(active);
      assert e in active.Used;
      var i := active.item[e];
      assert s.act[k] == i;
      assert i in s.act;
      if lrs[i].beg <= lrs[c].end {
        LastReaches(job, s, c);
        return true;
      }
      ExpireLast(job, s, c);
      active.Remove(e, k);
      regs.Put(place[lrs[i].n].r);
      assert Snap(active) == s.(act := Ring.Removed(s.act, k), pool := s.pool + {s.st[i].r});
      return false;
    }

    /** Retire the intervals that start after the end of interval c, from the back of the list. */
    method Expire(active: Ring.List, c: nat, ghost job: Job)
      requires Ready(active, job, c + 1) && first <= c < |lrs|
      modifies regs`free, active
      ensures Ready(active, job, c + 1) && job.Current(Snap(active), c)
      ensures Expires(job, old(Snap(active)), c, Snap(active))
    {
      ghost var s := Snap(active);
      IndexesInRange(job, s, c + 1);
      ExpiresNone(job, s, c);
      if active.used == Ring.NULL {
        LastReaches(job, s, c);
        ExpiresAll(job, s, c, |s.act|, s);
      } else {
        ExpireBack(active, c, job, s);
      }
    }

    /** The traversal of a list that is not empty. */
    method ExpireBack(active: Ring.List, c: nat, ghost job: Job, ghost s: State)
      requires Ready(active, job, c + 1) && first <= c < |lrs| && active.used != Ring.NULL
      requires ExpiresFrom(job, s, c, |active.Used|, Snap(active))
      modifies regs`free, active
      ensures Ready(active, job, c + 1) && job.Current(Snap(active), c)
      ensures Expires(job, s, c, Snap(active))
    {
      assert Ring.LinkedAt(active.next, active.prev, active.Used, 0);
      var lim := active.used;
      var le := active.prev[lim];
      while le != lim
        invariant Ready(active, job, c + 1) && ExpiresFrom(job, s, c, |active.Used|, Snap(active))
        invariant |active.Used| > 0 && lim == active.Used[0] && le == active.Used[|active.Used| - 1]
        decreases |active.Used|
      {
        var before := Previous(active, le);
        var stop := ExpireNext(active, le, c, job, s);
        if stop {
          return;
        }
        le := before;
      }
      ExpireFirst(active, le, c, job, s);
    }

    /** The element before the last one. */
    method Previous(active: Ring.List, e: nat) returns (p: nat)
      requires active.Valid() && 1 < |active.Used| && e == active.Used[|active.Used| - 1]
      ensures p == active.Used[|active.Used| - 2]
    {
      assert e in active.Used && Ring.LinkedAt(active.next, active.prev, active.Used, |active.Used| - 1);
      p := active.prev[e];
    }

    /** The only active element left. */
    method ExpireFirst(active: Ring.List, e: nat, c: nat, ghost job: Job, ghost s: State)
      requires Ready(active, job, c + 1) && first <= c < |lrs| && ExpiresFrom(job, s, c, |active.Used|, Snap(active))
      requires |active.Used| > 0 && e == active.Used[0] == active.Used[|active.Used| - 1]
      modifies regs`free, active
      ensures Ready(active, job, c + 1) && job.Current(Snap(active), c)
      ensures Expires(job, s, c, Snap(active))
    {
      var stop := ExpireNext(active, e, c, job, s);
      if !stop {
        LastReaches(job, Snap(active), c);
        ExpiresAll(job, s, c, |active.Used|, Snap(active));
      }
    }

    /** The same as ExpireOne, when all behind e have been retired since state s. */
    method ExpireNext(active: Ring.List, e: nat, c: nat, ghost job: Job, ghost s: State) returns (stop: bool)
      requires Ready(active, job, c + 1) && first <= c < |lrs| && ExpiresFrom(job, s, c, |active.Used|, Snap(active))
      requires |active.Used| > 0 && e == active.Used[|active.Used| - 1]
      modifies regs`free, active
      ensures Ready(active, job, c + 1)
      ensures stop ==> job.Current(Snap(active), c) && Expires(job, s, c, Snap(active))
      ensures !stop ==> active.Used == old(active.Used)[..|old(active.Used)| - 1]
      ensures !stop ==> ExpiresFrom(job, s, c, |active.Used|, Snap(active))
    {
      ghost var e0, n := Snap(active), |active.Used|;
      stop := ExpireOne(active, e, c, job);
      if stop {
        CurrentReaches(job, e0, c);
        ExpiresAll(job, s, c, n, e0);
      } else {
        assert e0.act[n - 1] == s.act[n - 1];
        ExpiresMore(job, s, c, n, e0, Snap(active));
      }
    }

    function Count(i: nat): real
      requires i < |lrs|
    {
      refcnt(lrs[i].n)
    }

    /** The active element whose interval has the least reference count, as far as counts
        truncated to integers tell; NULL if no count is below the limit. */
    method LeastCost(active: Ring.List) returns (e: int, refc: nat, ghost k: nat)
      requires active.Valid() && Tables()
      requires forall l: nat :: l < |active.Items()| ==> first <= active.Items()[l] < |lrs|
      ensures e != Ring.NULL ==> k < |active.Items()| && e == active.Used[k] && refc == Count(active.Items()[k]).Floor
      ensures e == Ring.NULL ==> refc == MAX_COUNT
      ensures forall l: nat :: l < |active.Items()| ==> refc <= Count(active.Items()[l]).Floor
      ensures e != Ring.NULL ==> refc < MAX_COUNT && forall l: nat :: l < k ==> refc < Count(active.Items()[l]).Floor
    {
      e, refc, k := Ring.NULL, MAX_COUNT, 0;
      if active.used == Ring.NULL {
        return;
      }
      assert Ring.LinkedAt(active.next, active.prev, active.Used, 0);
      var le: nat, lim: nat := active.used, active.prev[active.used];
      ghost var n: nat := 0;
      ghost var items := active.Items();
      while true
        invariant n < |items| && le == active.Used[n] && lim == active.Used[|active.Used| - 1]
        invariant e != Ring.NULL ==> k < |items| && e == active.Used[k] && refc == Count(items[k]).Floor
        invariant e == Ring.NULL ==> refc == MAX_COUNT
        invariant forall l: nat :: l < n ==> refc <= Count(items[l]).Floor
        invariant e != Ring.NULL ==> k < n && refc < MAX_COUNT
        invariant e != Ring.NULL ==> forall l: nat :: l < k ==> refc < Count(items[l]).Floor
        decreases |items| - n
      {
        assert le in active.Used && items[n] == active.item[le] && items[n] in items;
        var i := active.item[le];
        FloorLess(Count(i), refc);
        if Count(i) < refc as real {
          e, k := le, n;
          refc := Count(i).Floor;
        }
        if le == lim {
          break;
        }
        assert Ring.LinkedAt(active.next, active.prev, active.Used, n);
        le := active.next[le];
        n := n + 1;
      }
    }

    /** With all registers taken, the active element to spill; NULL to spill interval c itself. */
    method ChooseVictim(active: Ring.List, c: nat, ghost job: Job) returns (e: int, ghost k: nat)
      requires active.Valid() && For(job) && c < |lrs| && active.IsFull() && 0 < active.sz
      requires forall l: nat :: l < |active.Items()| ==> first <= active.Items()[l] < |lrs|
      ensures e != Ring.NULL ==> k < |active.Items()| && e == active.Used[k]
      ensures e != Ring.NULL ==> IsVictim(job, Pol(), active.Items(), c, k)
      ensures e == Ring.NULL ==> forall l: nat :: !IsVictim(job, Pol(), active.Items(), c, l)
    {
      ghost var items := active.Items();
      if useCounts {
        var refc;
        e, refc, k := LeastCost(active);
        if e == Ring.NULL {
          return;
        }
        assert e in active.Used && items[k] == active.item[e];
        assert IsLeast(Pol(), items, k);
        if !(refc as real < Count(c) || (refc as real == Count(c) && lrs[active.item[e]].beg < lrs[c].beg)) {
          e := Ring.NULL;
          OneLeast(Pol(), items, k);
        }
      } else {
        e, k := active.used, 0;
        assert e in active.Used && items[0] == active.item[e];
        if !(lrs[active.item[e]].beg < lrs[c].beg) {
          e := Ring.NULL;
        }
      }
    }

    /** Spill the active element e and return its register. */
    method SpillActive(active: Ring.List, e: nat, ghost k: nat, c: nat, ghost job: Job) returns (r: nat)
      requires Ready(active, job, c + 1) && job.Current(Snap(active), c) && first <= c < |lrs| && job.Candidate(c)
      requires regs.free == {} && k < |active.Used| && e == active.Used[k]
      modifies this`place, this`slot, active
      ensures active.Valid() && active.sz == |job.pool0| && For(job) && !active.IsFull()
      ensures Ready2(active, job, c, r) && OthersKept(old(place), place)
      ensures var s := old(Snap(active));
        && k < |s.act| && s.act[k] < |s.st| && s.st[s.act[k]] == Register(r)
        && Snap(active) == OnStack(s, s.act[k]).(act := Ring.Removed(s.act, k))
    {
      ghost var s := Snap(active);
      assert e in active.Used && s.act[k] == active.item[e];
      SpillVictim(job, s, c, k);
      var v := active.item[e];
      r := place[lrs[v].n].r;
      Spill(v);
      active.Remove(e, k);
      assert State(s.st[v := Stack(s.slot)], Ring.Removed(s.act, k), {s.st[v].r}, s.slot + 1)
          == Snap(active).(pool := regs.free + {r});
    }

    /** Only locals with an interval that are not parameters have been moved. */
    ghost predicate OthersKept(place0: map<Local, Storage>, place1: map<Local, Storage>) {
      forall v :: v in place0 ==>
        v in place1
        && (place1[v] == place0[v] || (v !in params && exists i: nat :: first <= i < |lrs| && lrs[i].n == v))
    }

    /** Like Ready, with register r in hand for interval c. */
    ghost predicate Ready2(active: Ring.List, job: Job, c: nat, r: nat)
      requires active.Valid()
      reads this, regs, active
    {
      var s := Snap(active).(pool := regs.free + {r});
      r !in regs.free && job.Inv(s, c + 1) && job.Current(s, c)
    }

    /** The last active element whose interval starts before that of c; NULL if there is none. */
    method FindStart(active: Ring.List, c: nat) returns (e: int, ghost k: nat)
      requires active.Valid() && c < |lrs|
      requires forall l: nat :: l < |active.Items()| ==> active.Items()[l] < |lrs|
      ensures e == Ring.NULL <==> forall l: nat :: l < |active.Items()| ==> lrs[c].beg <= lrs[active.Items()[l]].beg
      ensures k <= |active.Items()|
      ensures if k == 0 then e == Ring.NULL else e == active.Used[k - 1] && lrs[active.Items()[k - 1]].beg < lrs[c].beg
      ensures forall l: nat :: k <= l < |active.Items()| ==> lrs[c].beg <= lrs[active.Items()[l]].beg
    {
      ghost var items := active.Items();
      k := |items|;
      var lim := active.used;
      if lim == Ring.NULL {
        return Ring.NULL, 0;
      }
      assert Ring.LinkedAt(active.next, active.prev, active.Used, 0);
      var le: nat := active.prev[lim];
      while true
        invariant 0 < k <= |items| && le == active.Used[k - 1] && lim == active.Used[0]
        invariant forall l: nat :: k <= l < |items| ==> lrs[c].beg <= lrs[items[l]].beg
        decreases k
      {
        assert le in active.Used && items[k - 1] == active.item[le];
        if lrs[active.item[le]].beg < lrs[c].beg {
          return le, k;
        }
        k := k - 1;
        if le == lim {
          return Ring.NULL, 0;
        }
        assert Ring.LinkedAt(active.next, active.prev, active.Used, k);
        le := active.prev[le];
      }
    }

    /** Enter interval c into the active list behind e, or at the head. */
    method Enter(active: Ring.List, c: nat) returns (ghost k: nat)
      requires active.Valid() && !active.IsFull() && c < |lrs|
      requires forall l: nat :: l < |active.Items()| ==> active.Items()[l] < |lrs|
      modifies active
      ensures active.Valid() && k <= |old(active.Items())| && active.Items() == Ring.Inserted(old(active.Items()), k, c)
      ensures 0 < k ==> lrs[old(active.Items())[k - 1]].beg < lrs[c].beg
      ensures forall l: nat :: k <= l < |old(active.Items())| ==> lrs[c].beg <= lrs[old(active.Items())[l]].beg
    {
      var e;
      e, k := FindStart(active, c);
      if e == Ring.NULL {
        active.InsertBwd(e, c, 0);
      } else {
        active.InsertFwd(e, c, k - 1);
      }
    }

    /** Give interval c register r and enter it into the active list. */
    method Assign(active: Ring.List, c: nat, r: nat, ghost job: Job)
      requires active.Valid() && active.sz == |job.pool0| && For(job) && !active.IsFull()
      requires Ready2(active, job, c, r) && first <= c < |lrs| && job.Candidate(c)
      modifies this`place, active
      ensures Ready(active, job, c) && OthersKept(old(place), place)
      ensures Gives(job, old(Snap(active)), c, r, Snap(active))
    {
      ghost var s := Snap(active);
      StorageUpdate(lrs, first, place, c, Register(r));
      place := place[lrs[c].n := Register(r)];
      IndexesInRange(job, s.(pool := s.pool + {r}), c + 1);
      ghost var k := Enter(active, c);
      Assigned(job, s, c, r, k, Snap(active));
    }

    /** One interval. */
    method Step(active: Ring.List, c: nat, ghost job: Job)
      requires Ready(active, job, c + 1) && first <= c < |lrs| && 2 <= active.sz
      modifies this`place, this`slot, regs`free, active
      ensures Ready(active, job, c) && OthersKept(old(place), place)
      ensures Steps(job, Pol(), old(Snap(active)), c, Snap(active))
    {
      ghost var s := Snap(active);
      IndexesInRange(job, s, c + 1);
      assert s.st[c] == place[lrs[c].n];
      if lrs[c].n in params {
        SkipParam(job, s, c);
        return;
      }
      if place[lrs[c].n].InMemory? {
        SpillMemory(job, s, c);
        Spill(c);
        assert Snap(active) == s.(st := s.st[c := Stack(s.slot)], slot := s.slot + 1);
        return;
      }
      StepCandidate(active, c, job);
    }

    /** One interval that competes for a register. */
    method StepCandidate(active: Ring.List, c: nat, ghost job: Job)
      requires Ready(active, job, c + 1) && first <= c < |lrs| && 2 <= active.sz && job.Candidate(c)
      modifies this`place, this`slot, regs`free, active
      ensures Ready(active, job, c) && OthersKept(old(place), place)
      ensures exists e: State :: Expires(job, old(Snap(active)), c, e) && Places(job, Pol(), e, c, Snap(active))
    {
      Expire(active, c, job);
      ghost var e := Snap(active);
      Place(active, c, job);
      assert Expires(job, old(Snap(active)), c, e) && Places(job, Pol(), e, c, Snap(active));
    }

    /** The interval competes for a register. */
    method Place(active: Ring.List, c: nat, ghost job: Job)
      requires Ready(active, job, c + 1) && first <= c < |lrs| && 2 <= active.sz
      requires job.Candidate(c) && job.Current(Snap(active), c)
      modifies this`place, this`slot, regs`free, active
      ensures Ready(active, job, c) && OthersKept(old(place), place)
      ensures Places(job, Pol(), old(Snap(active)), c, Snap(active))
    {
      ghost var s := Snap(active);
      IndexesInRange(job, s, c + 1);
      if active.IsFull() {
        PlaceFull(active, c, job);
      } else {
        var r := regs.Get();
        assert regs.free + {r} == s.pool;
        assert Snap(active).(pool := regs.free + {r}) == s;
        assert IsBest(Pol(), s.pool, r);
        Assign(active, c, r, job);
      }
    }

    /** All registers are taken: something is spilled. */
    method PlaceFull(active: Ring.List, c: nat, ghost job: Job)
      requires Ready(active, job, c + 1) && first <= c < |lrs| && 2 <= active.sz && active.IsFull()
      requires job.Candidate(c) && job.Current(Snap(active), c)
      modifies this`place, this`slot, active
      ensures Ready(active, job, c) && OthersKept(old(place), place)
      ensures Places(job, Pol(), old(Snap(active)), c, Snap(active))
    {
      ghost var s := Snap(active);
      IndexesInRange(job, s, c + 1);
      assert regs.free == {};
      var e;
      ghost var k;
      e, k := ChooseVictim(active, c, job);
      if e == Ring.NULL {
        SpillSelf(active, c, job);
      } else {
        Evict(active, e, k, c, job);
      }
    }

    /** Interval c is done, since storage was place0. */
    ghost predicate DoneSince(active: Ring.List, job: Job, c: nat, place0: map<Local, Storage>)
      reads this, regs, active
    {
      Ready(active, job, c) && OthersKept(place0, place)
    }

    /** Interval c goes to the stack itself. */
    method SpillSelf(active: Ring.List, c: nat, ghost job: Job)
      requires Ready(active, job, c + 1) && first <= c < |lrs| && job.Current(Snap(active), c) && job.Candidate(c)
      requires regs.free == {}
      modifies this`place, this`slot
      ensures DoneSince(active, job, c, old(place))
      ensures Snap(active) == OnStack(old(Snap(active)), c)
    {
      ghost var s := Snap(active);
      SelfSpilled(job, s, c);
      MovedOne(place, c, Stack(slot));
      Spill(c);
      ghost var s' := Snap(active);
      assert s' == OnStack(s, c);
    }

    lemma MovedOne(place0: map<Local, Storage>, c: nat, x: Storage)
      requires first <= c < |lrs| && lrs[c].n in place0 && lrs[c].n !in params
      ensures OthersKept(place0, place0[lrs[c].n := x])
    {
    }

    /** The active element e goes to the stack, and its register to interval c. */
    method Evict(active: Ring.List, e: nat, ghost k: nat, c: nat, ghost job: Job)
      requires Ready(active, job, c + 1) && first <= c < |lrs| && job.Current(Snap(active), c) && job.Candidate(c)
      requires regs.free == {} && k < |active.Used| && e == active.Used[k] && Sized(job, Pol(), Snap(active))
      modifies this`place, this`slot, active
      ensures Ready(active, job, c) && OthersKept(old(place), place)
      ensures Evicts(job, Pol(), old(Snap(active)), c, k, Snap(active))
    {
      ghost var s := Snap(active);
      var r := SpillActive(active, e, k, c, job);
      ghost var place1 := place;
      Assign(active, c, r, job);
      KeptOn(old(place), place1, place);
    }

    /** Allocate storage for every interval, from the last to the first. */
    method Run(ghost job: Job)
      requires For(job) && job.Valid() && 2 <= |regs.free|
      requires job.init == StorageOf(lrs, first, place) && job.pool0 == regs.free && job.slot0 == slot
      modifies this`place, this`slot, regs`free
      ensures job.Allocated(StorageOf(lrs, first, place), slot) && Tables()
      ensures OthersKept(old(place), place)
      ensures Outcome(job, Pol(), StorageOf(lrs, first, place), slot)
    {
      var active := new Ring.List(regs.Available());
      assert active.Items() == [];
      Begin(job, regs.free);
      RunFrom(active, job);
    }

    /** Where a scan with states trace has got to. */
    ghost predicate Got(active: Ring.List, job: Job, c: nat, trace: seq<State>)
      reads this, regs, active
    {
      && Ready(active, job, c) && IsScan(job, Pol(), trace)
      && c + |trace| == |lrs| + 1 && trace[|trace| - 1] == Snap(active)
    }

    /** The same, with an empty list of active intervals. */
    method RunFrom(active: Ring.List, ghost job: Job)
      requires Ready(active, job, |lrs|) && Snap(active) == State(job.init, [], job.pool0, job.slot0) && 2 <= active.sz
      modifies this`place, this`slot, regs`free, active
      ensures job.Allocated(StorageOf(lrs, first, place), slot) && Tables()
      ensures OthersKept(old(place), place)
      ensures Outcome(job, Pol(), StorageOf(lrs, first, place), slot)
    {
      var c := |lrs|;
      ghost var trace := [Snap(active)];
      while c > first
        invariant first <= c <= |lrs| && 2 <= active.sz
        invariant Got(active, job, c, trace) && OthersKept(old(place), place)
      {
        ghost var place1 := place;
        c := c - 1;
        trace := StepOn(active, c, job, trace);
        KeptOn(old(place), place1, place);
      }
      Finish(job, Snap(active));
    }

    /** One interval of many. */
    method StepOn(active: Ring.List, c: nat, ghost job: Job, ghost trace0: seq<State>) returns (ghost trace: seq<State>)
      requires Got(active, job, c + 1, trace0) && first <= c < |lrs| && 2 <= active.sz
      modifies this`place, this`slot, regs`free, active
      ensures Got(active, job, c, trace) && OthersKept(old(place), place)
    {
      ghost var s := Snap(active);
      Step(active, c, job);
      ghost var s' := Snap(active);
      trace := trace0 + [s'];
      assert trace0[|trace0| - 1] == s && |job.lrs| - |trace0| == c;
      assert Steps(job, Pol(), s, c, s');
      ScanOn(job, Pol(), trace0, s, c, s');
    }

    lemma KeptOn(place0: map<Local, Storage>, place1: map<Local, Storage>, place2: map<Local, Storage>)
      requires OthersKept(place0, place1) && OthersKept(place1, place2)
      ensures OthersKept(place0, place2)
    {
    }
  }

  lemma Finish(job: Job, s: State)
    requires job.Inv(s, job.first)
    ensures job.Allocated(s.st, s.slot)
  {
    var t := State(s.st, [], {}, s.slot);
    forall i: nat, j: nat {:trigger job.Apart(t, i, j)} | job.first <= i && job.first <= j && job.Index(i)
      && job.Index(j) && i != j
      ensures job.Apart(t, i, j)
    {
      assert job.Apart(s, i, j);
    }
    forall i: nat, j: nat {:trigger job.SlotsDiffer(t, i, j)} | job.first <= i && job.first <= j && job.Index(i)
      && job.Index(j)
        && i != j && !job.param[i] && !job.param[j]
      ensures job.SlotsDiffer(t, i, j)
    {
      assert job.SlotsDiffer(s, i, j);
    }
    forall i: nat | job.Index(i) && !job.param[i] ensures job.Settled(t, i) {
      assert job.Settled(s, i);
    }
  }

  lemma SelfSpilled(job: Job, s: State, c: nat)
    requires job.Inv(s, c + 1) && job.Current(s, c) && s.pool == {} && job.Candidate(c)
    ensures job.Inv(OnStack(s, c), c) && !job.param[c]
  {
    SpillCurrent(job, s, c);
  }

  /** Interval c has got register r and its place in the list. */
  lemma Assigned(job: Job, s: State, c: nat, r: nat, k: nat, s': State)
    requires job.Inv(s.(pool := s.pool + {r}), c + 1) && job.Current(s.(pool := s.pool + {r}), c) && job.Candidate(c)
    requires r !in s.pool && PlaceFor(job, s.act, k, c) && s' == InRegister(s, c, r, k)
    ensures job.Inv(s', c) && Gives(job, s, c, r, s')
  {
    var s1 := s.(pool := s.pool + {r});
    IndexesInRange(job, s1, c + 1);
    BeforeInOrder(job, s.act, k, c);
    TakeRegister(job, s1, c, k, r);
    assert s1.pool - {r} == s.pool;
  }

  lemma FloorLess(x: real, n: int)
    ensures x < n as real <==> x.Floor < n
  {
  }

  lemma CurrentReaches(job: Job, s: State, c: nat)
    requires job.Inv(s, c + 1) && job.Current(s, c)
    ensures forall i :: i in s.act && i < |job.lrs| ==> job.lrs[i].beg <= job.lrs[c].end
  {
    forall i | i in s.act && i < |job.lrs| ensures job.lrs[i].beg <= job.lrs[c].end {
      assert job.Index(i);
    }
  }

  lemma IndexesInRange(job: Job, s: State, done: nat)
    requires job.Inv(s, done)
    ensures forall l: nat :: l < |s.act| ==> job.Index(s.act[l])
  {
    forall l: nat | l < |s.act| ensures job.Index(s.act[l]) {
      assert s.act[l] in s.act;
    }
  }

  /** What starts no later than the element before position k stands before it. */
  lemma BeforeInOrder(job: Job, act: seq<nat>, k: nat, c: nat)
    requires job.Sorted(act) && k <= |act| && c < |job.lrs|
    requires 0 < k ==> job.Index(act[k - 1]) && job.lrs[act[k - 1]].beg < job.lrs[c].beg
    ensures forall l :: 0 <= l < k && job.Index(act[l]) ==> job.lrs[act[l]].beg <= job.lrs[c].beg
  {
    forall l | 0 <= l < k && job.Index(act[l]) ensures job.lrs[act[l]].beg <= job.lrs[c].beg {
      assert l < k - 1 ==> job.StartsInOrder(act, l, k - 1);
    }
  }
}
