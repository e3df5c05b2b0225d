/** How linear scan decides: which register it takes, which interval it spills, and how the active list
    is kept. */
module ScanPolicy {
  import opened Intervals
  import opened LinearScan
  import opened Registers
  import Ring

  const MAX_COUNT := 0x7fff_ffff

  /** Whether reference counts guide the spills, the count of every interval's local, and the registers
      to try first. */
  datatype Policy = Policy(useCounts: bool, count: seq<real>, likes: set<nat>)

  ghost predicate Sized(job: Job, pol: Policy, s: State) {
    |job.lrs| == |job.param| == |job.init| == |s.st| == |pol.count| && InTable(job, s.act)
  }

  ghost predicate InTable(job: Job, act: seq<nat>) {
    forall l: nat :: l < |act| ==> act[l] < |job.lrs|
  }

  /** The lowest free register among those to try first, or else the lowest. */
  ghost predicate IsBest(pol: Policy, pool: set<nat>, r: nat) {
    if pool * pol.likes != {} then r in pool && r in pol.likes && forall x :: x in pool && x in pol.likes ==> r <= x
    else r in pool && forall x :: x in pool ==> r <= x
  }

  /** The active interval at k is the first of those with the least count, as far as counts truncated to
      integers tell. */
  ghost predicate IsLeast(pol: Policy, act: seq<nat>, k: nat)
    requires k < |act| && forall l: nat :: l < |act| ==> act[l] < |pol.count|
  {
    var least := pol.count[act[k]].Floor;
    && least < MAX_COUNT
    && (forall l: nat :: l < |act| ==> least <= pol.count[act[l]].Floor)
    && (forall l: nat :: l < k ==> least < pol.count[act[l]].Floor)
  }

  /** With all registers taken, the active interval at k is spilled for interval c: by counts, the one
      with the least, if that is less than the count of c, or equal to it and it starts earlier; or else
      the one that starts first, if it starts before c. */
  ghost predicate IsVictim(job: Job, pol: Policy, act: seq<nat>, c: nat, k: nat)
  {
    && |job.lrs| == |pol.count| && c < |job.lrs| && InTable(job, act) && k < |act|
    && if pol.useCounts then
         var least := pol.count[act[k]].Floor as real;
         && IsLeast(pol, act, k)
         && (least < pol.count[c] || (least == pol.count[c] && job.lrs[act[k]].beg < job.lrs[c].beg))
       else k == 0 && job.lrs[act[k]].beg < job.lrs[c].beg
  }

  function OnStack(s: State, i: nat): State
    requires i < |s.st|
  {
    s.(st := s.st[i := Stack(s.slot)], slot := s.slot + 1)
  }

  function InRegister(s: State, c: nat, r: nat, k: nat): State
    requires c < |s.st| && k <= |s.act|
  {
    s.(st := s.st[c := Register(r)], act := Ring.Inserted(s.act, k, c))
  }

  /** Position k keeps the active list sorted by start: behind the last that starts before c. */
  ghost predicate PlaceFor(job: Job, act: seq<nat>, k: nat, c: nat)
  {
    && c < |job.lrs| && InTable(job, act) && k <= |act|
    && (k > 0 ==> job.lrs[act[k - 1]].beg < job.lrs[c].beg)
    && forall l: nat :: k <= l < |act| ==> job.lrs[c].beg <= job.lrs[act[l]].beg
  }

  /** c gets register r. */
  ghost predicate Gives(job: Job, s: State, c: nat, r: nat, s': State)
  {
    c < |s.st| && exists k: nat :: PlaceFor(job, s.act, k, c) && s' == InRegister(s, c, r, k)
  }

  /** The registers that intervals xs hold. */
  ghost function Freed(s: State, xs: seq<nat>): set<nat> {
    set i | i in xs && i < |s.st| && s.st[i].Register? :: s.st[i].r
  }

  /** The active intervals from n on start after the end of c; they go, and their registers become free. */
  ghost predicate ExpiresFrom(job: Job, s: State, c: nat, n: nat, e: State)
  {
    && c < |job.lrs| && InTable(job, s.act) && n <= |s.act|
    && e == s.(act := s.act[..n], pool := s.pool + Freed(s, s.act[n..]))
    && forall l: nat :: n <= l < |s.act| ==> job.lrs[c].end < job.lrs[s.act[l]].beg
  }

  /** And no others do. */
  ghost predicate Expires(job: Job, s: State, c: nat, e: State)
  {
    exists n: nat ::
      ExpiresFrom(job, s, c, n, e) && forall l: nat :: l < n ==> job.lrs[s.act[l]].beg <= job.lrs[c].end
  }

  /** A candidate gets a free register if there is one; or else the victim's, whose local goes to the
      stack; or else, if there is no victim, goes to the stack itself. */
  ghost predicate Places(job: Job, pol: Policy, s: State, c: nat, s': State)
  {
    && Sized(job, pol, s) && c < |job.lrs|
    && if |s.act| < |job.pool0| then
      exists r: nat :: IsBest(pol, s.pool, r) && Gives(job, s.(pool := s.pool - {r}), c, r, s')
    else if forall k: nat :: !IsVictim(job, pol, s.act, c, k) then s' == OnStack(s, c)
    else exists k: nat :: IsVictim(job, pol, s.act, c, k) && Evicts(job, pol, s, c, k, s')
  }

  /** The active interval at k goes to the stack, and c gets its register. */
  ghost predicate Evicts(job: Job, pol: Policy, s: State, c: nat, k: nat, s': State)
    requires Sized(job, pol, s) && k < |s.act|
  {
    var v := s.act[k];
    s.st[v].Register? && Gives(job, OnStack(s, v).(act := Ring.Removed(s.act, k)), c, s.st[v].r, s')
  }

  /** What happens to interval c. */
  ghost predicate Steps(job: Job, pol: Policy, s: State, c: nat, s': State) {
    && Sized(job, pol, s) && c < |job.lrs|
    && if job.param[c] then s' == s
       else if job.init[c].InMemory? then s' == OnStack(s, c)
       else exists e: State :: Expires(job, s, c, e) && Places(job, pol, e, c, s')
  }

  /** The states of a scan, which takes the last interval first. */
  ghost predicate IsScan(job: Job, pol: Policy, trace: seq<State>) {
    && 0 < |trace| <= |job.lrs| + 1 && trace[0] == State(job.init, [], job.pool0, job.slot0)
    && forall n: nat {:trigger StepAt(job, pol, trace, n)} :: n + 1 < |trace| ==> StepAt(job, pol, trace, n)
  }

  ghost predicate StepAt(job: Job, pol: Policy, trace: seq<State>, n: nat)
    requires n + 1 < |trace| <= |job.lrs| + 1
  {
    Steps(job, pol, trace[n], |job.lrs| - 1 - n, trace[n + 1])
  }

  /** The outcome of a scan of all intervals. */
  ghost predicate Outcome(job: Job, pol: Policy, st: seq<Storage>, slot: nat) {
    exists trace: seq<State> ::
      && IsScan(job, pol, trace) && job.first + |trace| == |job.lrs| + 1
      && trace[|trace| - 1].st == st && trace[|trace| - 1].slot == slot
  }

  lemma ScanOn(job: Job, pol: Policy, trace: seq<State>, s: State, c: nat, s': State)
    requires IsScan(job, pol, trace) && |trace| <= |job.lrs| && trace[|trace| - 1] == s && |job.lrs| - |trace| == c
    requires Steps(job, pol, s, c, s')
    ensures IsScan(job, pol, trace + [s'])
  {
    var more := trace + [s'];
    forall n: nat | n + 1 < |more| ensures StepAt(job, pol, more, n) {
      assert n + 1 < |trace| ==> StepAt(job, pol, trace, n);
    }
  }

  lemma GivesAt(job: Job, s: State, c: nat, r: nat, k: nat, s': State)
    requires c < |s.st| && PlaceFor(job, s.act, k, c) && s' == InRegister(s, c, r, k)
    ensures Gives(job, s, c, r, s')
  {
  }

  /** There is at most one least count. */
  lemma {:induction false} OneLeast(pol: Policy, act: seq<nat>, k: nat)
    requires k < |act| && (forall l: nat :: l < |act| ==> act[l] < |pol.count|) && IsLeast(pol, act, k)
    ensures forall l: nat :: l < |act| && IsLeast(pol, act, l) ==> l == k
  {
  }

  // ----- Retiring intervals from the back -----

  lemma ExpiresNone(job: Job, s: State, c: nat)
    requires c < |job.lrs| && InTable(job, s.act)
    ensures ExpiresFrom(job, s, c, |s.act|, s)
  {
    assert s.act[..|s.act|] == s.act && Freed(s, s.act[|s.act|..]) == {};
  }

  lemma ExpiresMore(job: Job, s: State, c: nat, n: nat, e: State, e': State)
    requires ExpiresFrom(job, s, c, n, e) && 0 < n && s.act[n - 1] < |s.st|
    requires var i := s.act[n - 1];
      && job.lrs[c].end < job.lrs[i].beg && s.st[i].Register?
      && e' == e.(act := e.act[..n - 1], pool := e.pool + {s.st[i].r})
    ensures ExpiresFrom(job, s, c, n - 1, e')
  {
    var i := s.act[n - 1];
    assert s.act[n - 1..] == [i] + s.act[n..] && s.act[..n][..n - 1] == s.act[..n - 1];
    FreedMore(s, i, s.act[n..]);
    assert s.pool + Freed(s, s.act[n..]) + {s.st[i].r} == s.pool + (Freed(s, s.act[n..]) + {s.st[i].r});
    forall l: nat | n - 1 <= l < |s.act| ensures job.lrs[c].end < job.lrs[s.act[l]].beg {
    }
  }

  lemma FreedMore(s: State, i: nat, xs: seq<nat>)
    requires i < |s.st| && s.st[i].Register?
    ensures Freed(s, [i] + xs) == Freed(s, xs) + {s.st[i].r}
  {
    assert forall x :: x in [i] + xs <==> x == i || x in xs;
  }

  lemma ExpiresAll(job: Job, s: State, c: nat, n: nat, e: State)
    requires ExpiresFrom(job, s, c, n, e)
    requires forall i :: i in e.act && i < |job.lrs| ==> job.lrs[i].beg <= job.lrs[c].end
    ensures Expires(job, s, c, e)
  {
    forall l: nat | l < n ensures job.lrs[s.act[l]].beg <= job.lrs[c].end {
      assert s.act[l] == e.act[l] && e.act[l] in e.act;
    }
  }
}
