/** The code of a switch statement: a binary search over the buckets. */
module SwitchCode {
  import opened Bits
  import opened Switches
  import opened Buckets
  import opened SwitchTables
  import opened TableAddresses

  /** Branch when the selector equals, exceeds or is below a constant; jump; jump through a table
      whose first entry is for the lowest case; define a label. */
  datatype Op = IfEqual(value: int, target: nat) | IfAbove(value: int, target: nat) | IfBelow(value: int, target: nat)
    | Goto(target: nat) | ViaTable(low: int, table: seq<nat>) | Define(target: nat)

  /** Where control goes: to a label outside the code, past the end, or nowhere known. */
  datatype Outcome = To(target: nat) | PastEnd | Astray

  /** A run: its outcome, and how many label definitions it passed. */
  datatype Trace = Trace(outcome: Outcome, passed: nat)

  /** The position of the first definition of l, or |code|. */
  function Find(code: seq<Op>, l: nat): (n: nat)
    ensures n <= |code| && (n < |code| ==> code[n] == Define(l))
    ensures n == |code| <==> Define(l) !in code
  {
    if code == [] then 0 else if code[0] == Define(l) then 0 else 1 + Find(code[1..], l)
  }

  /** Run the code for selector x. Jumps go forward, or out of the code. */
  function Exec(code: seq<Op>, x: int): Trace
    decreases |code|, 0
  {
    if code == [] then Trace(PastEnd, 0) else Step(code[0], code[1..], x)
  }

  /** Run one operation in front of the rest of the code. */
  function Step(op: Op, rest: seq<Op>, x: int): Trace
    decreases |rest|, 2
  {
    match op
    case IfEqual(v, l) => if x == v then Jump(rest, l, x) else Exec(rest, x)
    case IfAbove(v, l) => if x > v then Jump(rest, l, x) else Exec(rest, x)
    case IfBelow(v, l) => if x < v then Jump(rest, l, x) else Exec(rest, x)
    case Goto(l) => Jump(rest, l, x)
    case ViaTable(low, table) =>
      var i := TableIndex(low, x);
      if 0 <= i < |table| then Jump(rest, table[i], x) else Trace(Astray, 0)
    case Define(_) => Labelled(rest, x)
  }

  /** The run of code behind a label. */
  function Labelled(code: seq<Op>, x: int): Trace
    decreases |code|, 1
  {
    var r := Exec(code, x); Trace(r.outcome, r.passed + 1)
  }

  function Jump(rest: seq<Op>, l: nat, x: int): Trace
    decreases |rest|, 1
  {
    var n := Find(rest, l);
    if n == |rest| then Trace(To(l), 0) else Exec(rest[n..], x)
  }

  /** The cases, sorted, with their labels, and the default label. */
  datatype Switch = Switch(values: seq<int>, labels: seq<nat>, deflab: nat) {

    ghost predicate Valid() {
      0 < |values| == |labels| && AllInts(values) && StrictlyAscending(values)
    }

    /** All labels are older than base. */
    ghost predicate Older(base: nat) {
      deflab < base && forall i: nat :: i < |labels| ==> labels[i] < base
    }

    /** The label x goes to, by the meaning of the switch statement. */
    function Meaning(x: int): nat
      requires |values| == |labels|
    {
      LabelOf(values, labels, deflab, x)
    }
  }

  /** A switch whose cases have been grouped into buckets. */
  datatype Plan = Plan(sw: Switch, b: seq<nat>) {

    ghost predicate Valid() {
      sw.Valid() && Cuts(sw.values, b, |sw.values|) && 1 < |b|
    }

    function Count(): int {
      |b| - 1
    }

    predicate IsBucket(k: int) {
      0 <= k && k + 1 < |b| && b[k] < b[k + 1] <= |sw.values| == |sw.labels|
    }

    function Low(k: nat): int
      requires IsBucket(k)
    {
      sw.values[b[k]]
    }

    function High(k: nat): int
      requires IsBucket(k)
    {
      sw.values[b[k + 1] - 1]
    }

    predicate Serves(k: int, x: int) {
      IsBucket(k) && Low(k) <= x <= High(k)
    }

    /** A bucket of more than three cases gets a table. */
    predicate Big(k: nat)
      requires IsBucket(k)
    {
      b[k + 1] - b[k] > 3
    }

    function Values(k: nat): seq<int>
      requires IsBucket(k)
    {
      sw.values[b[k]..b[k + 1]]
    }

    function Labels(k: nat): seq<nat>
      requires IsBucket(k)
    {
      sw.labels[b[k]..b[k + 1]]
    }

    /** Where the code for bucket k sends x. */
    ghost function Answer(k: nat, x: int): Outcome
      requires sw.Valid() && Serves(k, x)
    {
      if !Big(k) then To(LabelOf(Values(k), Labels(k), sw.deflab, x))
      else
        assert AllInts(Values(k));
        if HasEntry(Values(k), Labels(k), sw.deflab, x) then To(Entry(Values(k), Labels(k), sw.deflab, x))
        else Astray
    }

    /** o is where the buckets lb..ub send x: the one that serves x decides, or else the default. */
    ghost predicate Decides(lb: int, ub: int, x: int, o: Outcome)
      requires sw.Valid()
    {
      && (forall k: nat {:trigger Serves(k, x)} :: lb <= k <= ub && Serves(k, x) ==> o == Answer(k, x))
      && ((forall k: nat {:trigger Serves(k, x)} :: lb <= k <= ub ==> !Serves(k, x)) ==> o == To(sw.deflab))
    }
  }

  /** The labels that occur in the code are older than base or were made for it. */
  ghost predicate Fits(code: seq<Op>, base: nat, n0: nat, n1: nat) {
    forall i: nat {:trigger code[i]} :: i < |code| ==> OpFits(code[i], base, n0, n1)
  }

  predicate Known(l: nat, base: nat, n0: nat, n1: nat) {
    l < base || n0 <= l < n1
  }

  ghost predicate OpFits(op: Op, base: nat, n0: nat, n1: nat) {
    match op
    case Define(l) => n0 <= l < n1
    case ViaTable(_, table) => forall i: nat :: i < |table| ==> table[i] < base
    case IfEqual(_, l) => Known(l, base, n0, n1)
    case IfAbove(_, l) => Known(l, base, n0, n1)
    case IfBelow(_, l) => Known(l, base, n0, n1)
    case Goto(l) => Known(l, base, n0, n1)
  }

  /** The code does for x what the buckets lb..ub say, passing few other buckets. */
  ghost predicate Runs(p: Plan, lb: int, ub: int, code: seq<Op>, x: int)
    requires p.sw.Valid()
  {
    var r := Exec(code, x);
    p.Decides(lb, ub, x, r.outcome) && Power2(r.passed) <= ub - lb + 1
  }

  ghost predicate Implements(p: Plan, lb: int, ub: int, code: seq<Op>, base: nat, n0: nat, n1: nat)
    requires p.sw.Valid()
  {
    && Fits(code, base, n0, n1)
    && forall x: int {:trigger Exec(code, x)} :: Runs(p, lb, ub, code, x)
  }

  lemma {:induction false} FindAppend(a: seq<Op>, c: seq<Op>, l: nat)
    ensures Find(a + c, l) == if Find(a, l) < |a| then Find(a, l) else |a| + Find(c, l)
  {
    if a == [] {
      assert a + c == c;
    } else {
      assert (a + c)[1..] == a[1..] + c;
      if a[0] != Define(l) {
        FindAppend(a[1..], c, l);
      }
    }
  }

  /** Code that leaves without reaching its end does so in front of any other code that does not
      define its labels. */
  lemma {:induction false} ExecAppend(a: seq<Op>, c: seq<Op>, x: int, base: nat, n0: nat, n1: nat)
    requires Fits(a, base, n0, n1) && Exec(a, x).outcome != PastEnd
    requires forall l: nat :: Known(l, base, n0, n1) ==> Define(l) !in c
    ensures Exec(a + c, x) == Exec(a, x)
    decreases |a|, 0
  {
    assert (a + c)[1..] == a[1..] + c;
    assert Exec(a, x) == Step(a[0], a[1..], x) && Exec(a + c, x) == Step(a[0], a[1..] + c, x);
    assert OpFits(a[0], base, n0, n1);
    match a[0]
    case IfEqual(v, l) => if x == v { JumpAppend(a[1..], c, l, x, base, n0, n1); }
      else { ExecAppend(a[1..], c, x, base, n0, n1); }
    case IfAbove(v, l) => if x > v { JumpAppend(a[1..], c, l, x, base, n0, n1); }
      else { ExecAppend(a[1..], c, x, base, n0, n1); }
    case IfBelow(v, l) => if x < v { JumpAppend(a[1..], c, l, x, base, n0, n1); }
      else { ExecAppend(a[1..], c, x, base, n0, n1); }
    case Goto(l) => JumpAppend(a[1..], c, l, x, base, n0, n1);
    case ViaTable(low, table) =>
      if 0 <= TableIndex(low, x) < |table| {
        JumpAppend(a[1..], c, table[TableIndex(low, x)], x, base, n0, n1);
      }
    case Define(_) =>
      assert Exec(a, x) == Labelled(a[1..], x) && Exec(a + c, x) == Labelled(a[1..] + c, x);
      ExecAppend(a[1..], c, x, base, n0, n1);
  }

  lemma {:induction false} JumpAppend(a: seq<Op>, c: seq<Op>, l: nat, x: int, base: nat, n0: nat, n1: nat)
    requires Fits(a, base, n0, n1) && Jump(a, l, x).outcome != PastEnd && Known(l, base, n0, n1)
    requires forall l: nat :: Known(l, base, n0, n1) ==> Define(l) !in c
    ensures Jump(a + c, l, x) == Jump(a, l, x)
    decreases |a|, 1
  {
    FindAppend(a, c, l);
    var n := Find(a, l);
    if n < |a| {
      assert (a + c)[n..] == a[n..] + c;
      ExecAppend(a[n..], c, x, base, n0, n1);
    }
  }

  // ----- The code for one bucket, in front of the code for the others -----

  /** The last comparison of a bucket without a table. */
  function GuardOf(p: Plan, k: nat, lb: nat, ub: nat, lolab: nat, hilab: nat): Op
    requires p.IsBucket(k)
  {
    if lb < k then IfAbove(p.High(k), hilab)
    else if k < ub then IfBelow(p.Low(k), lolab)
    else Goto(lolab)
  }

  ghost function TableOf(p: Plan, k: nat): Op
    requires p.sw.Valid() && p.IsBucket(k)
  {
    assert AllInts(p.Values(k));
    ViaTable(p.Low(k), Entries(p.Values(k), p.Labels(k), p.sw.deflab))
  }

  /** The code for bucket k alone. */
  ghost function HeadOf(p: Plan, k: nat, lb: nat, ub: nat, lolab: nat, hilab: nat): seq<Op>
    requires p.sw.Valid() && p.IsBucket(k)
  {
    if p.Big(k) then [IfBelow(p.Low(k), lolab), IfAbove(p.High(k), hilab), TableOf(p, k)]
    else Chain(p.Values(k), p.Labels(k)) + [GuardOf(p, k, lb, ub, lolab, hilab)]
  }

  /** The code for the buckets in the middle of lb..ub: its labels and those of its two halves. */
  datatype Split = Split(p: Plan, lb: nat, ub: nat, k: nat, lolab: nat, hilab: nat, left: seq<Op>, right: seq<Op>) {

    ghost predicate Valid(base: nat, n0: nat, nl: nat, nr: nat, n1: nat) {
      && p.Valid() && p.sw.Older(base) && lb <= k <= ub && ub + 1 < |p.b| && k == (lb + ub) / 2 && p.IsBucket(k)
      && base <= n0 <= nl <= nr <= n1
      && (if lb < k then n0 <= lolab < nl && Implements(p, lb, k - 1, left, base, nl, nr)
            else lolab == p.sw.deflab && left == [])
      && (if k < ub then n0 <= hilab < nl && Implements(p, k + 1, ub, right, base, nr, n1)
            else hilab == p.sw.deflab && right == [])
      && (lb < k < ub ==> lolab != hilab)
    }

    function Left(): seq<Op> {
      if lb < k then [Define(lolab)] + left else []
    }

    function Right(): seq<Op> {
      if k < ub then [Define(hilab)] + right else []
    }

    /** Searching the lower half. */
    function Lower(x: int): Trace {
      if lb < k then Labelled(left, x) else Trace(To(p.sw.deflab), 0)
    }

    function Upper(x: int): Trace {
      if k < ub then Labelled(right, x) else Trace(To(p.sw.deflab), 0)
    }

    function Guard(): Op
      requires p.IsBucket(k)
    {
      GuardOf(p, k, lb, ub, lolab, hilab)
    }

    ghost function Head(): seq<Op>
      requires p.sw.Valid() && p.IsBucket(k)
    {
      HeadOf(p, k, lb, ub, lolab, hilab)
    }

    ghost function Code(): seq<Op>
      requires p.sw.Valid() && p.IsBucket(k)
    {
      Head() + (Left() + Right())
    }
  }

  /** Compare with each of the cases. */
  function Chain(v: seq<int>, labels: seq<nat>): (s: seq<Op>)
    requires |v| == |labels|
    ensures |s| == |v| && forall i: nat {:trigger s[i]} :: i < |v| ==> s[i] == IfEqual(v[i], labels[i])
  {
    seq(|v|, i requires 0 <= i < |v| => IfEqual(v[i], labels[i]))
  }

  lemma FitsDefines(code: seq<Op>, base: nat, n0: nat, n1: nat, l: nat)
    requires Fits(code, base, n0, n1) && !(n0 <= l < n1)
    ensures Define(l) !in code
  {
  }

  /** A jump to the next label. */
  lemma JumpHere(l: nat, code: seq<Op>, x: int)
    ensures Exec([Define(l)] + code, x) == Jump([Define(l)] + code, l, x) == Labelled(code, x)
  {
    var all := [Define(l)] + code;
    assert all[1..] == code && all[0..] == all;
  }

  /** A jump over other code. */
  lemma JumpOver(a: seq<Op>, l: nat, code: seq<Op>, x: int)
    requires Define(l) !in a
    ensures Jump(a + ([Define(l)] + code), l, x) == Labelled(code, x)
  {
    FindAppend(a, [Define(l)] + code, l);
    assert (a + ([Define(l)] + code))[|a|..] == [Define(l)] + code;
    JumpHere(l, code, x);
  }

  lemma SearchLower(s: Split, base: nat, n0: nat, nl: nat, nr: nat, n1: nat, x: int)
    requires s.Valid(base, n0, nl, nr, n1)
    ensures Jump(s.Left() + s.Right(), s.lolab, x) == s.Lower(x)
    ensures s.lb < s.k ==> Exec(s.Left() + s.Right(), x) == s.Lower(x)
  {
    if s.lb < s.k {
      assert s.Left() + s.Right() == [Define(s.lolab)] + (s.left + s.Right());
      LowerAlone(s, base, n0, nl, nr, n1, x);
      JumpHere(s.lolab, s.left + s.Right(), x);
    } else {
      OldLabelUndefined(s, base, n0, nl, nr, n1, s.lolab);
    }
  }

  /** The lower half does not look at the upper one. */
  lemma LowerAlone(s: Split, base: nat, n0: nat, nl: nat, nr: nat, n1: nat, x: int)
    requires s.Valid(base, n0, nl, nr, n1) && s.lb < s.k
    ensures Exec(s.left + s.Right(), x) == Exec(s.left, x)
  {
    assert Runs(s.p, s.lb, s.k - 1, s.left, x);
    DecidedEnds(s.p, s.lb, s.k - 1, x, Exec(s.left, x).outcome);
    forall l: nat | Known(l, base, nl, nr) ensures Define(l) !in s.Right() {
      if s.k < s.ub {
        FitsDefines(s.right, base, nr, n1, l);
      }
    }
    ExecAppend(s.left, s.Right(), x, base, nl, nr);
  }

  lemma SearchUpper(s: Split, base: nat, n0: nat, nl: nat, nr: nat, n1: nat, x: int)
    requires s.Valid(base, n0, nl, nr, n1)
    ensures Jump(s.Left() + s.Right(), s.hilab, x) == s.Upper(x)
    ensures s.lb == s.k < s.ub ==> Exec(s.Left() + s.Right(), x) == s.Upper(x)
  {
    if s.k < s.ub {
      if s.lb < s.k {
        FitsDefines(s.left, base, nl, nr, s.hilab);
      } else {
        assert s.Left() + s.Right() == s.Right();
        JumpHere(s.hilab, s.right, x);
      }
      JumpOver(s.Left(), s.hilab, s.right, x);
    } else {
      OldLabelUndefined(s, base, n0, nl, nr, n1, s.hilab);
    }
  }

  /** An outcome that the buckets decide is not the end of the code. */
  lemma DecidedEnds(p: Plan, lb: int, ub: int, x: int, o: Outcome)
    requires p.sw.Valid() && p.Decides(lb, ub, x, o)
    ensures o != PastEnd
  {
  }

  lemma OldLabelUndefined(s: Split, base: nat, n0: nat, nl: nat, nr: nat, n1: nat, l: nat)
    requires s.Valid(base, n0, nl, nr, n1) && l < base
    ensures Define(l) !in s.Left() + s.Right()
  {
    if s.lb < s.k {
      FitsDefines(s.left, base, nl, nr, l);
    }
    if s.k < s.ub {
      FitsDefines(s.right, base, nr, n1, l);
    }
  }

  // ----- What the code does -----

  /** A chain of comparisons leaves for the label of x, or falls through. */
  lemma {:induction false} ChainRuns(v: seq<int>, labels: seq<nat>, rest: seq<Op>, x: int)
    requires |v| == |labels|
    requires forall i: nat :: i < |labels| ==> Define(labels[i]) !in rest
    ensures Exec(Chain(v, labels) + rest, x) == if x in v then Trace(To(labels[IndexOf(v, x)]), 0) else Exec(rest, x)
  {
    if v == [] {
      assert Chain(v, labels) + rest == rest;
    } else {
      assert Chain(v, labels) + rest == [IfEqual(v[0], labels[0])] + (Chain(v[1..], labels[1..]) + rest);
      ExecStep(IfEqual(v[0], labels[0]), Chain(v[1..], labels[1..]) + rest, x);
      if x == v[0] {
        ChainDefinesNothing(v[1..], labels[1..], rest, labels[0]);
      } else {
        ChainRuns(v[1..], labels[1..], rest, x);
      }
    }
  }

  lemma ChainDefinesNothing(v: seq<int>, labels: seq<nat>, rest: seq<Op>, l: nat)
    requires |v| == |labels| && Define(l) !in rest
    ensures Find(Chain(v, labels) + rest, l) == |Chain(v, labels) + rest|
  {
    var all := Chain(v, labels) + rest;
    assert forall i: nat :: i < |v| ==> all[i] == Chain(v, labels)[i];
  }

  /** The run of the code for bucket k: at once to its answer, or on to one of the halves. */
  ghost predicate RunsLike(s: Split, x: int, r: Trace)
    requires s.p.sw.Valid() && s.p.IsBucket(s.k)
  {
    && (x < s.p.Low(s.k) ==> r == s.Lower(x))
    && (x > s.p.High(s.k) ==> r == s.Upper(x))
    && (s.p.Serves(s.k, x) && r != Trace(s.p.Answer(s.k, x), 0)
        ==> s.p.Answer(s.k, x) == To(s.p.sw.deflab) && (r == s.Lower(x) || r == s.Upper(x)))
  }

  lemma TableRuns(s: Split, base: nat, n0: nat, nl: nat, nr: nat, n1: nat, x: int)
    requires s.Valid(base, n0, nl, nr, n1) && s.p.Big(s.k) && s.p.Serves(s.k, x)
    ensures Step(TableOf(s.p, s.k), s.Left() + s.Right(), x) == Trace(s.p.Answer(s.k, x), 0)
  {
    assert AllInts(s.p.Values(s.k));
    var v, labels, deflab := s.p.Values(s.k), s.p.Labels(s.k), s.p.sw.deflab;
    if HasEntry(v, labels, deflab, x) {
      EntriesOld(v, labels, deflab, 0, Unsigned(s.p.Low(s.k)), base);
      OldLabelUndefined(s, base, n0, nl, nr, n1, Entry(v, labels, deflab, x));
    }
  }

  lemma BigCode(s: Split)
    requires s.p.sw.Valid() && s.p.IsBucket(s.k) && s.p.Big(s.k)
    ensures s.Code() == [IfBelow(s.p.Low(s.k), s.lolab), IfAbove(s.p.High(s.k), s.hilab), TableOf(s.p, s.k)] +
      (s.Left() + s.Right())
  {
  }

  lemma BigHeadRuns(low: int, lolab: nat, high: int, hilab: nat, via: Op, tail: seq<Op>, x: int)
    requires via.ViaTable?
    ensures Exec([IfBelow(low, lolab), IfAbove(high, hilab), via] + tail, x)
      == if x < low then Jump(tail, lolab, x) else if x > high then Jump(tail, hilab, x) else Step(via, tail, x)
  {
    var above, below := IfAbove(high, hilab), IfBelow(low, lolab);
    var rest := [above] + ([via] + tail);
    assert [below, above, via] + tail == [below] + rest;
    ExecStep(below, rest, x);
    AboveRuns(high, hilab, via, tail, lolab, x);
  }

  /** Behind the comparison with the lowest case. */
  lemma AboveRuns(high: int, hilab: nat, via: Op, tail: seq<Op>, lolab: nat, x: int)
    requires via.ViaTable?
    ensures var rest := [IfAbove(high, hilab)] + ([via] + tail);
      && Jump(rest, lolab, x) == Jump(tail, lolab, x)
      && Exec(rest, x) == if x > high then Jump(tail, hilab, x) else Step(via, tail, x)
  {
    JumpThrough([via] + tail, IfAbove(high, hilab), lolab, x);
    JumpThrough(tail, via, lolab, x);
    ExecStep(IfAbove(high, hilab), [via] + tail, x);
    JumpThrough(tail, via, hilab, x);
    ExecStep(via, tail, x);
  }

  /** The table holds only labels of cases and the default label. */
  lemma {:induction false} EntriesOld(v: seq<int>, labels: seq<nat>, deflab: nat, i: nat, k: nat, base: nat)
    requires |v| == |labels| && i <= |v| && AllInts(v) && deflab < base
    requires forall j: nat :: j < |labels| ==> labels[j] < base
    ensures forall j: nat :: j < |EntriesFrom(v, labels, deflab, i, k)| ==>
      EntriesFrom(v, labels, deflab, i, k)[j] < base
    decreases |v| - i
  {
    if i < |v| {
      var gap := if k < Unsigned(v[i]) then Unsigned(v[i]) - k else 0;
      EntriesOld(v, labels, deflab, i + 1, (k + gap + 1) % WORD, base);
    }
  }

  lemma JumpThrough(rest: seq<Op>, op: Op, l: nat, x: int)
    requires !op.Define?
    ensures Jump([op] + rest, l, x) == Jump(rest, l, x)
  {
    FindAppend([op], rest, l);
    var n := Find(rest, l);
    assert n < |rest| ==> ([op] + rest)[n + 1..] == rest[n..];
  }

  lemma ExecStep(op: Op, rest: seq<Op>, x: int)
    ensures Exec([op] + rest, x) == Step(op, rest, x)
  {
    assert ([op] + rest)[1..] == rest;
  }

  lemma SmallRuns(s: Split, base: nat, n0: nat, nl: nat, nr: nat, n1: nat, x: int)
    requires s.Valid(base, n0, nl, nr, n1) && !s.p.Big(s.k)
    ensures Exec(s.Code(), x) ==
      if x in s.p.Values(s.k) then Trace(To(s.p.Labels(s.k)[IndexOf(s.p.Values(s.k), x)]), 0)
      else Step(s.Guard(), s.Left() + s.Right(), x)
  {
    var tail := s.Left() + s.Right();
    var chain := Chain(s.p.Values(s.k), s.p.Labels(s.k));
    assert s.Code() == chain + ([s.Guard()] + tail);
    forall i: nat | i < |s.p.Labels(s.k)| ensures Define(s.p.Labels(s.k)[i]) !in [s.Guard()] + tail {
      assert s.p.Labels(s.k)[i] == s.p.sw.labels[s.p.b[s.k] + i];
      OldLabelUndefined(s, base, n0, nl, nr, n1, s.p.Labels(s.k)[i]);
    }
    ChainRuns(s.p.Values(s.k), s.p.Labels(s.k), [s.Guard()] + tail, x);
    ExecStep(s.Guard(), tail, x);
  }

  /** The last comparison sends on whatever is no case of the bucket. */
  lemma GuardRuns(s: Split, tail: seq<Op>, x: int)
    requires s.p.IsBucket(s.k) && s.p.Low(s.k) <= s.p.High(s.k) && s.lb <= s.k <= s.ub
    requires Jump(tail, s.lolab, x) == s.Lower(x) && Jump(tail, s.hilab, x) == s.Upper(x)
    requires s.lb < s.k ==> Exec(tail, x) == s.Lower(x)
    requires s.lb == s.k < s.ub ==> Exec(tail, x) == s.Upper(x)
    ensures var r := Step(s.Guard(), tail, x);
      if x < s.p.Low(s.k) then r == s.Lower(x) else if x > s.p.High(s.k) then r == s.Upper(x)
        else r == s.Lower(x) || r == s.Upper(x)
  {
  }

  lemma ValuesServed(s: Split, x: int)
    requires s.p.sw.Valid() && s.p.IsBucket(s.k)
    ensures s.p.Low(s.k) <= s.p.High(s.k)
    ensures x in s.p.Values(s.k) ==> s.p.Serves(s.k, x)
  {
    var v, b, e := s.p.sw.values, s.p.b[s.k], s.p.b[s.k + 1] - 1;
    SameOrder(v, b, e);
    if x in s.p.Values(s.k) {
      var i := IndexOf(s.p.Values(s.k), x);
      assert v[b + i] == x;
      SameOrder(v, b, b + i);
      SameOrder(v, b + i, e);
    }
  }

  lemma BigRunsLike(s: Split, x: int, r: Trace)
    requires s.p.sw.Valid() && s.p.IsBucket(s.k)
    requires if x < s.p.Low(s.k) then r == s.Lower(x)
      else if x > s.p.High(s.k) then r == s.Upper(x) else r == Trace(s.p.Answer(s.k, x), 0)
    ensures RunsLike(s, x, r)
  {
    ValuesServed(s, x);
  }

  lemma SmallRunsLike(s: Split, x: int, r: Trace)
    requires s.p.sw.Valid() && s.p.IsBucket(s.k) && !s.p.Big(s.k)
    requires x in s.p.Values(s.k) ==> r == Trace(To(s.p.Labels(s.k)[IndexOf(s.p.Values(s.k), x)]), 0)
    requires x !in s.p.Values(s.k) ==>
      if x < s.p.Low(s.k) then r == s.Lower(x) else if x > s.p.High(s.k) then r == s.Upper(x)
        else r == s.Lower(x) || r == s.Upper(x)
    ensures RunsLike(s, x, r)
  {
    ValuesServed(s, x);
  }

  lemma BigRuns(s: Split, base: nat, n0: nat, nl: nat, nr: nat, n1: nat, x: int)
    requires s.Valid(base, n0, nl, nr, n1) && s.p.Big(s.k)
    ensures var r := Exec(s.Code(), x);
      if x < s.p.Low(s.k) then r == s.Lower(x)
      else if x > s.p.High(s.k) then r == s.Upper(x) else r == Trace(s.p.Answer(s.k, x), 0)
  {
    BigCode(s);
    var tail := s.Left() + s.Right();
    BigHeadRuns(s.p.Low(s.k), s.lolab, s.p.High(s.k), s.hilab, TableOf(s.p, s.k), tail, x);
    SearchLower(s, base, n0, nl, nr, n1, x);
    SearchUpper(s, base, n0, nl, nr, n1, x);
    if s.p.Serves(s.k, x) {
      TableRuns(s, base, n0, nl, nr, n1, x);
    }
  }

  lemma CodeRuns(s: Split, base: nat, n0: nat, nl: nat, nr: nat, n1: nat, x: int)
    requires s.Valid(base, n0, nl, nr, n1)
    ensures RunsLike(s, x, Exec(s.Code(), x))
  {
    if s.p.Big(s.k) {
      BigRuns(s, base, n0, nl, nr, n1, x);
      BigRunsLike(s, x, Exec(s.Code(), x));
    } else {
      SmallRuns(s, base, n0, nl, nr, n1, x);
      ValuesServed(s, x);
      SearchLower(s, base, n0, nl, nr, n1, x);
      SearchUpper(s, base, n0, nl, nr, n1, x);
      GuardRuns(s, s.Left() + s.Right(), x);
      SmallRunsLike(s, x, Exec(s.Code(), x));
    }
  }
}
