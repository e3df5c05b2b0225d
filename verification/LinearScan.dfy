/** Linear-scan register allocation: the argument, on snapshots of the allocator's state. */
module LinearScan {
  import opened Intervals
  import opened Registers
  import Ring

  /** The part of the allocator's state that changes: the storage of each interval's local, the
      active intervals in list order, the free registers and the next free stack slot. */
  datatype State = State(st: seq<Storage>, act: seq<nat>, pool: set<nat>, slot: nat)

  predicate Overlap(a: Interval, b: Interval) {
    a.beg <= b.end && b.beg <= a.end
  }

  /** The input: intervals lrs[first..] by increasing end, which of them belong to parameters,
      storage on entry, free registers on entry and the first free stack slot. */
  datatype Job =
    Job(lrs: seq<Interval>, first: nat, param: seq<bool>, init: seq<Storage>, pool0: set<nat>, slot0: nat)
  {

    predicate Index(i: nat) {
      first <= i < |lrs|
    }

    ghost predicate Valid() {
      && first <= |lrs| == |param| == |init|
      && (forall i: nat :: Index(i) ==> lrs[i].beg <= lrs[i].end)
      && (forall i: nat :: Index(i) && !param[i] ==> init[i].Undecided? || init[i].InMemory?)
      && (forall i: nat, j: nat {:trigger EndsInOrder(i, j)} :: Index(i) && Index(j) && i < j ==> EndsInOrder(i, j))
    }

    predicate EndsInOrder(i: nat, j: nat)
      requires Index(i) && Index(j)
    {
      lrs[i].end <= lrs[j].end
    }

    /** An interval that competes for a register. */
    predicate Candidate(i: nat)
      requires |lrs| == |param| == |init|
    {
      Index(i) && !param[i] && init[i].Undecided?
    }

    /** Interval i has been given a register. */
    predicate InReg(s: State, i: nat)
      requires |lrs| == |param| == |init| == |s.st|
    {
      Candidate(i) && s.st[i].Register?
    }

    /** The active list: distinct intervals sorted by start, holding distinct registers which with
        the free ones make up the initial pool. */
    ghost predicate ActiveOk(s: State, done: nat)
      requires |lrs| == |param| == |init| == |s.st|
    {
      && Ring.Distinct(s.act)
      && (forall i :: i in s.act ==> done <= i && Holds(s, i))
      && (forall i, j {:trigger RegsDiffer(s, i, j)} :: i in s.act && j in s.act && i != j ==> RegsDiffer(s, i, j))
      && Sorted(s.act)
      && s.pool <= pool0
      && |s.act| + |s.pool| == |pool0|
    }

    /** Active interval i has a register of the pool that is not free. */
    predicate Holds(s: State, i: nat)
      requires |lrs| == |param| == |init| == |s.st|
    {
      InReg(s, i) && s.st[i].r in pool0 && s.st[i].r !in s.pool
    }

    predicate RegsDiffer(s: State, i: nat, j: nat)
      requires i < |s.st| && j < |s.st|
    {
      s.st[i].Register? && s.st[j].Register? ==> s.st[i].r != s.st[j].r
    }

    ghost predicate Sorted(act: seq<nat>) {
      && (forall i :: i in act ==> Index(i))
      && (forall k, l {:trigger StartsInOrder(act, k, l)} :: 0 <= k < l < |act| ==> StartsInOrder(act, k, l))
    }

    predicate StartsInOrder(act: seq<nat>, k: nat, l: nat)
      requires k < |act| && l < |act|
    {
      Index(act[k]) && Index(act[l]) && lrs[act[k]].beg <= lrs[act[l]].beg
    }

    /** Overlapping intervals in registers have different ones. */
    ghost predicate NoClash(s: State, done: nat)
      requires |lrs| == |param| == |init| == |s.st|
    {
      forall i: nat, j: nat {:trigger Apart(s, i, j)} ::
        done <= i && done <= j && Index(i) && Index(j) && i != j ==> Apart(s, i, j)
    }

    predicate Apart(s: State, i: nat, j: nat)
      requires |lrs| == |param| == |init| == |s.st| && Index(i) && Index(j)
    {
      InReg(s, i) && InReg(s, j) && Overlap(lrs[i], lrs[j]) ==> s.st[i].r != s.st[j].r
    }

    /** An interval that holds a register but is not active starts after all that are to come. */
    ghost predicate Expired(s: State, done: nat)
      requires |lrs| == |param| == |init| == |s.st|
    {
      forall i: nat, j: nat {:trigger Past(s, i, j)} ::
        done <= i && Index(i) && i !in s.act && Index(j) && j < done ==> Past(s, i, j)
    }

    predicate Past(s: State, i: nat, j: nat)
      requires |lrs| == |param| == |init| == |s.st| && Index(i) && Index(j)
    {
      InReg(s, i) ==> lrs[j].end < lrs[i].beg
    }

    /** Intervals seen have a register of the pool or a stack slot of their own; the rest, and
        parameters, are as on entry. */
    ghost predicate Placed(s: State, done: nat)
      requires |lrs| == |param| == |init| == |s.st|
    {
      && slot0 <= s.slot
      && (forall i: nat :: i < |lrs| && (i < done || param[i]) ==> s.st[i] == init[i])
      && (forall i: nat :: done <= i && Index(i) && !param[i] ==> Settled(s, i))
      && (forall i: nat, j: nat {:trigger SlotsDiffer(s, i, j)} ::
            done <= i && done <= j && Index(i) && Index(j) && i != j && !param[i] && !param[j] ==> SlotsDiffer(s, i, j))
    }

    predicate Settled(s: State, i: nat)
      requires |lrs| == |param| == |init| == |s.st| && Index(i)
    {
      match s.st[i]
      case Register(r) => r in pool0 && Candidate(i)
      case Stack(x) => slot0 <= x < s.slot
      case _ => false
    }

    predicate SlotsDiffer(s: State, i: nat, j: nat)
      requires i < |s.st| && j < |s.st|
    {
      s.st[i].Stack? && s.st[j].Stack? ==> s.st[i].slot != s.st[j].slot
    }

    /** More candidates than registers are live at component p. */
    ghost predicate Crowded(p: nat)
      requires |lrs| == |param| == |init|
    {
      exists S: set<nat> :: CrowdedBy(p, S)
    }

    ghost predicate CrowdedBy(p: nat, S: set<nat>)
      requires |lrs| == |param| == |init|
    {
      |S| > |pool0| && forall i :: i in S ==> Candidate(i) && lrs[i].beg <= p <= lrs[i].end
    }

    /** A candidate is on the stack only if there is a reason. */
    ghost predicate SpillsForced(s: State, done: nat)
      requires |lrs| == |param| == |init| == |s.st|
    {
      forall i: nat :: done <= i && Candidate(i) && s.st[i].Stack? ==> exists p: nat :: Crowded(p)
    }

    /** What the allocator keeps while intervals done, done + 1, ... have been seen. */
    ghost predicate Inv(s: State, done: nat) {
      && Valid() && first <= done <= |lrs| == |s.st|
      && ActiveOk(s, done)
      && NoClash(s, done)
      && Expired(s, done)
      && Placed(s, done)
      && SpillsForced(s, done)
    }

    /** What is left when all intervals have been seen. */
    ghost predicate Allocated(st: seq<Storage>, slot: nat) {
      && Valid() && |st| == |lrs|
      && var s := State(st, [], {}, slot);
         NoClash(s, first) && Placed(s, first) && SpillsForced(s, first)
    }

    /** Active intervals all reach the end of the next interval c. */
    ghost predicate Current(s: State, c: nat)
      requires |lrs| == |param| == |init| == |s.st|
    {
      Index(c) && forall i :: i in s.act && Index(i) ==> lrs[i].beg <= lrs[c].end
    }
  }

  lemma Begin(job: Job, pool: set<nat>)
    requires job.Valid() && pool == job.pool0
    ensures job.Inv(State(job.init, [], pool, job.slot0), |job.lrs|)
  {
  }

  /** The pairwise clauses carry over to a state that differs in the storage of one interval x,
      which ends up with a fresh slot or keeps out of registers. */
  lemma PairsKept(job: Job, s: State, done: nat, s': State, done': nat, x: nat)
    requires job.Inv(s, done) && |s'.st| == |s.st| && job.Index(x)
    requires done' == done || (done' + 1 == done && done' == x)
    requires s'.st == s.st[x := s'.st[x]]
    requires s'.st[x].Register? ==> job.param[x] || s'.st[x] == s.st[x]
    requires s'.st[x].Stack? && !job.param[x] ==> s.slot <= s'.st[x].slot
    ensures job.NoClash(s', done')
    ensures forall i: nat, j: nat {:trigger job.SlotsDiffer(s', i, j)} ::
      done' <= i && done' <= j && job.Index(i) && job.Index(j) && i != j && !job.param[i] && !job.param[j] ==>
        job.SlotsDiffer(s', i, j)
  {
    forall i: nat, j: nat {:trigger job.Apart(s', i, j)} | done' <= i && done' <= j && job.Index(i) && job.Index(j)
      && i != j
      ensures job.Apart(s', i, j)
    {
      assert i >= done && j >= done ==> job.Apart(s, i, j);
    }
    forall i: nat, j: nat {:trigger job.SlotsDiffer(s', i, j)} | done' <= i && done' <= j && job.Index(i)
      && job.Index(j) && i != j && !job.param[i] && !job.param[j]
      ensures job.SlotsDiffer(s', i, j)
    {
      assert i >= done && j >= done ==> job.SlotsDiffer(s, i, j);
      assert i >= done ==> job.Settled(s, i);
      assert j >= done ==> job.Settled(s, j);
    }
  }

  /** A parameter's interval needs nothing. */
  lemma SkipParam(job: Job, s: State, c: nat)
    requires job.Inv(s, c + 1) && job.Index(c) && job.param[c]
    ensures job.Inv(s, c)
  {
    PairsKept(job, s, c + 1, s, c, c);
    forall i: nat, j: nat {:trigger job.Past(s, i, j)} | c <= i && job.Index(i) && i !in s.act && job.Index(j)
      && j < c
      ensures job.Past(s, i, j)
    {
      assert i != c ==> job.Past(s, i, j);
    }
  }

  /** A local that must live in memory gets a fresh slot. */
  lemma SpillMemory(job: Job, s: State, c: nat)
    requires job.Inv(s, c + 1) && job.Index(c) && !job.param[c] && job.init[c].InMemory?
    ensures job.Inv(s.(st := s.st[c := Stack(s.slot)], slot := s.slot + 1), c)
  {
    ToStack(job, s, c);
  }

  /** The common part of putting c on the stack. */
  lemma ToStack(job: Job, s: State, c: nat)
    requires job.Inv(s, c + 1) && job.Index(c) && !job.param[c]
    requires job.init[c].InMemory? || exists p: nat :: job.Crowded(p)
    ensures job.Inv(s.(st := s.st[c := Stack(s.slot)], slot := s.slot + 1), c)
  {
    var s' := s.(st := s.st[c := Stack(s.slot)], slot := s.slot + 1);
    PairsKept(job, s, c + 1, s', c, c);
    forall i, j {:trigger job.RegsDiffer(s', i, j)} | i in s.act && j in s.act && i != j
      ensures job.RegsDiffer(s', i, j) {
      assert job.RegsDiffer(s, i, j);
    }
    forall i: nat, j: nat {:trigger job.Past(s', i, j)} | c <= i && job.Index(i) && i !in s.act && job.Index(j)
      && j < c
      ensures job.Past(s', i, j)
    {
      assert i != c ==> job.Past(s, i, j);
    }
  }

  /** Dropping an active interval gives its register back to the pool. */
  lemma DropActive(job: Job, s: State, done: nat, k: nat)
    requires |job.lrs| == |job.param| == |job.init| == |s.st| && job.ActiveOk(s, done) && k < |s.act|
    ensures s.act[k] in s.act && job.InReg(s, s.act[k])
    ensures job.ActiveOk(s.(act := Ring.Removed(s.act, k), pool := s.pool + {s.st[s.act[k]].r}), done)
  {
    var e := s.act[k];
    assert e in s.act;
    Ring.RemovedMembers(s.act, k);
    var act' := Ring.Removed(s.act, k);
    var s' := s.(act := act', pool := s.pool + {s.st[e].r});
    forall i | i in act' ensures job.Holds(s', i) {
      assert job.Holds(s, i) && job.RegsDiffer(s, i, e);
    }
    forall i, j {:trigger job.RegsDiffer(s', i, j)} | i in act' && j in act' && i != j
      ensures job.RegsDiffer(s', i, j) {
      assert job.RegsDiffer(s, i, j);
    }
    forall a: nat, b: nat {:trigger job.StartsInOrder(act', a, b)} | a < b < |act'|
      ensures job.StartsInOrder(act', a, b) {
      assert job.StartsInOrder(s.act, if a < k then a else a + 1, if b < k then b else b + 1);
    }
    assert Ring.Distinct(act') by {
      forall a, b | 0 <= a < b < |act'| ensures act'[a] != act'[b] {
        assert act'[a] == s.act[if a < k then a else a + 1] && act'[b] == s.act[if b < k then b else b + 1];
      }
    }
  }

  /** The last active interval starts after the end of c: it expires. */
  lemma ExpireLast(job: Job, s: State, c: nat)
    requires job.Inv(s, c + 1) && job.Index(c) && |s.act| > 0
    requires job.Index(s.act[|s.act| - 1]) && job.lrs[s.act[|s.act| - 1]].beg > job.lrs[c].end
    ensures s.act[|s.act| - 1] in s.act && job.InReg(s, s.act[|s.act| - 1])
    ensures job.Inv(s.(act := Ring.Removed(s.act, |s.act| - 1), pool := s.pool + {s.st[s.act[|s.act| - 1]].r}), c + 1)
  {
    var e := s.act[|s.act| - 1];
    DropActive(job, s, c + 1, |s.act| - 1);
    Ring.RemovedMembers(s.act, |s.act| - 1);
    var s' := s.(act := Ring.Removed(s.act, |s.act| - 1), pool := s.pool + {s.st[e].r});
    PairsKept(job, s, c + 1, s', c + 1, e);
    forall i: nat, j: nat {:trigger job.Past(s', i, j)} | c + 1 <= i && job.Index(i) && i !in s'.act && job.Index(j)
      && j < c + 1
      ensures job.Past(s', i, j)
    {
      if i == e {
        assert j < c ==> job.EndsInOrder(j, c);
      } else {
        assert job.Past(s, i, j);
      }
    }
  }

  /** Once the last active interval reaches c's end, all do. */
  lemma LastReaches(job: Job, s: State, c: nat)
    requires job.Inv(s, c + 1) && job.Index(c)
    requires |s.act| > 0 ==> job.Index(s.act[|s.act| - 1]) && job.lrs[s.act[|s.act| - 1]].beg <= job.lrs[c].end
    ensures job.Current(s, c)
  {
    forall i | i in s.act && job.Index(i) ensures job.lrs[i].beg <= job.lrs[c].end {
      var k :| 0 <= k < |s.act| && s.act[k] == i;
      assert k < |s.act| - 1 ==> job.StartsInOrder(s.act, k, |s.act| - 1);
    }
  }

  ghost function Members(act: seq<nat>): set<nat> {
    set i | i in act
  }

  lemma {:induction false} Cardinality(act: seq<nat>)
    requires Ring.Distinct(act)
    ensures |Members(act)| == |act|
  {
    if act != [] {
      var rest := act[1..];
      Cardinality(rest);
      assert act == [act[0]] + rest;
      assert forall k :: 0 <= k < |rest| ==> rest[k] == act[k + 1];
      assert Members(act) == Members(rest) + {act[0]};
    }
  }

  /** With no register free, the end of c lies in more candidates than there are registers. */
  lemma FullIsCrowded(job: Job, s: State, c: nat)
    requires job.Inv(s, c + 1) && job.Current(s, c) && s.pool == {} && job.Candidate(c)
    ensures job.Crowded(job.lrs[c].end)
  {
    var S := Members(s.act);
    Cardinality(s.act);
    assert c !in S && |S + {c}| == |S| + 1;
    forall i | i in S + {c} ensures job.Candidate(i) && job.lrs[i].beg <= job.lrs[c].end <= job.lrs[i].end {
      if i != c {
        assert i in s.act && job.Holds(s, i) && job.EndsInOrder(c, i);
      }
    }
    assert job.CrowdedBy(job.lrs[c].end, S + {c});
  }

  /** A full list: the current interval goes to the stack. */
  lemma SpillCurrent(job: Job, s: State, c: nat)
    requires job.Inv(s, c + 1) && job.Current(s, c) && s.pool == {} && job.Candidate(c)
    ensures job.Inv(s.(st := s.st[c := Stack(s.slot)], slot := s.slot + 1), c)
  {
    FullIsCrowded(job, s, c);
    ToStack(job, s, c);
  }

  /** A full list: an active interval goes to the stack, and its register becomes free. */
  lemma {:induction false} SpillVictim(job: Job, s: State, c: nat, k: nat)
    requires job.Inv(s, c + 1) && job.Current(s, c) && s.pool == {} && job.Candidate(c) && k < |s.act|
    ensures s.act[k] in s.act && job.InReg(s, s.act[k])
    ensures var v := s.act[k];
      var s' := State(s.st[v := Stack(s.slot)], Ring.Removed(s.act, k), {s.st[v].r}, s.slot + 1);
      job.Inv(s', c + 1) && job.Current(s', c)
  {
    FullIsCrowded(job, s, c);
    DropActive(job, s, c + 1, k);
    Ring.RemovedMembers(s.act, k);
    var v := s.act[k];
    var s1 := s.(act := Ring.Removed(s.act, k), pool := s.pool + {s.st[v].r});
    var s' := State(s.st[v := Stack(s.slot)], Ring.Removed(s.act, k), {s.st[v].r}, s.slot + 1);
    PairsKept(job, s, c + 1, s', c + 1, v);
    forall i | i in s'.act ensures job.Holds(s', i) {
      assert job.Holds(s1, i);
    }
    forall i, j {:trigger job.RegsDiffer(s', i, j)} | i in s'.act && j in s'.act && i != j
      ensures job.RegsDiffer(s', i, j) {
      assert job.RegsDiffer(s, i, j);
    }
    forall i: nat, j: nat {:trigger job.Past(s', i, j)} | c + 1 <= i && job.Index(i) && i !in s'.act && job.Index(j)
      && j < c + 1
      ensures job.Past(s', i, j)
    {
      assert i != v ==> job.Past(s, i, j);
    }
  }

  /** Inserting c into the active list where its start belongs keeps the list sorted. */
  lemma InsertSorted(job: Job, act: seq<nat>, k: nat, c: nat)
    requires job.Sorted(act) && Ring.Distinct(act) && c !in act && job.Index(c) && k <= |act|
    requires forall i :: 0 <= i < k && job.Index(act[i]) ==> job.lrs[act[i]].beg <= job.lrs[c].beg
    requires forall i :: k <= i < |act| && job.Index(act[i]) ==> job.lrs[c].beg <= job.lrs[act[i]].beg
    ensures job.Sorted(Ring.Inserted(act, k, c)) && Ring.Distinct(Ring.Inserted(act, k, c))
  {
    Ring.InsertedMembers(act, k, c);
    var act' := Ring.Inserted(act, k, c);
    forall a: nat, b: nat {:trigger job.StartsInOrder(act', a, b)} | a < b < |act'|
      ensures job.StartsInOrder(act', a, b) && act'[a] != act'[b]
    {
      assert act'[a] == if a < k then act[a] else if a == k then c else act[a - 1];
      assert act'[b] == if b < k then act[b] else if b == k then c else act[b - 1];
      assert act'[a] in act' && act'[b] in act';
      if a != k && b != k {
        assert job.StartsInOrder(act, if a < k then a else a - 1, if b < k then b else b - 1);
      }
    }
  }

  /** The current interval gets the free register r and its place in the list. */
  lemma TakeRegister(job: Job, s: State, c: nat, k: nat, r: nat)
    requires job.Inv(s, c + 1) && job.Current(s, c) && r in s.pool && job.Candidate(c) && k <= |s.act|
    requires forall i :: 0 <= i < k && job.Index(s.act[i]) ==> job.lrs[s.act[i]].beg <= job.lrs[c].beg
    requires forall i :: k <= i < |s.act| && job.Index(s.act[i]) ==> job.lrs[c].beg <= job.lrs[s.act[i]].beg
    ensures job.Inv(State(s.st[c := Register(r)], Ring.Inserted(s.act, k, c), s.pool - {r}, s.slot), c)
  {
    assert c !in s.act;
    InsertSorted(job, s.act, k, c);
    Ring.InsertedMembers(s.act, k, c);
    var s' := State(s.st[c := Register(r)], Ring.Inserted(s.act, k, c), s.pool - {r}, s.slot);
    forall i | i in s'.act ensures job.Holds(s', i) {
      assert i != c ==> job.Holds(s, i);
    }
    forall i, j {:trigger job.RegsDiffer(s', i, j)} | i in s'.act && j in s'.act && i != j
      ensures job.RegsDiffer(s', i, j) {
      assert i != c && j != c ==> job.RegsDiffer(s, i, j);
      assert i != c ==> job.Holds(s, i);
      assert j != c ==> job.Holds(s, j);
    }
    TakeRegisterPairs(job, s, c, k, r);
  }

  lemma TakeRegisterPairs(job: Job, s: State, c: nat, k: nat, r: nat)
    requires job.Inv(s, c + 1) && r in s.pool && job.Candidate(c) && k <= |s.act|
    ensures var s' := State(s.st[c := Register(r)], Ring.Inserted(s.act, k, c), s.pool - {r}, s.slot);
      job.NoClash(s', c) && job.Expired(s', c) && job.Placed(s', c) && job.SpillsForced(s', c)
  {
    Ring.InsertedMembers(s.act, k, c);
    var s' := State(s.st[c := Register(r)], Ring.Inserted(s.act, k, c), s.pool - {r}, s.slot);
    forall i: nat, j: nat {:trigger job.Apart(s', i, j)} | c <= i && c <= j && job.Index(i) && job.Index(j) && i != j
      ensures job.Apart(s', i, j) {
      NewApart(job, s, c, r, i);
      NewApart(job, s, c, r, j);
      assert i != c && j != c ==> job.Apart(s, i, j);
    }
    forall i: nat, j: nat {:trigger job.Past(s', i, j)} | c <= i && job.Index(i) && i !in s'.act && job.Index(j)
      && j < c
      ensures job.Past(s', i, j)
    {
      assert job.Past(s, i, j);
    }
    forall i: nat, j: nat {:trigger job.SlotsDiffer(s', i, j)} | c <= i && c <= j && job.Index(i) && job.Index(j)
      && i != j && !job.param[i] && !job.param[j]
      ensures job.SlotsDiffer(s', i, j)
    {
      assert i != c && j != c ==> job.SlotsDiffer(s, i, j);
    }
  }

  /** An interval in a register that overlaps c is active, so its register is not free. */
  lemma NewApart(job: Job, s: State, c: nat, r: nat, i: nat)
    requires job.Inv(s, c + 1) && r in s.pool && job.Index(c) && job.Index(i) && c <= i
    ensures i != c && job.InReg(s, i) && Overlap(job.lrs[i], job.lrs[c]) ==> s.st[i].r != r
  {
    assert i !in s.act && i != c ==> job.Past(s, i, c);
    assert i in s.act ==> job.Holds(s, i);
  }

  /** No needless spills: where no component is crowded, every candidate gets a register. */
  lemma NoNeedlessSpills(job: Job, st: seq<Storage>, slot: nat)
    requires job.Allocated(st, slot) && forall p: nat :: !job.Crowded(p)
    ensures forall i: nat :: job.Candidate(i) ==> st[i].Register? && st[i].r in job.pool0
  {
    forall i: nat | job.Candidate(i) ensures st[i].Register? && st[i].r in job.pool0 {
      assert job.Settled(State(st, [], {}, slot), i);
    }
  }
}
