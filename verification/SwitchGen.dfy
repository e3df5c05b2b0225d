/** Generating the code of a switch statement. */
module SwitchGen {
  import opened Bits
  import opened Switches
  import opened Buckets
  import opened SwitchTables
  import opened SwitchCode
  import opened TableAddresses

  lemma {:induction false} CutsMonotone(v: seq<int>, s: seq<nat>, k: nat, i: nat, j: nat)
    requires Cuts(v, s, k) && i <= j < |s|
    ensures s[i] <= s[j] <= k
    decreases j - i
  {
    CutsInside(v, s, k, j);
    if i < j {
      assert Nonempty(s, i);
      CutsMonotone(v, s, k, i + 1, j);
    }
  }

  lemma BucketExists(p: Plan, k: nat)
    requires p.Valid() && k + 1 < |p.b|
    ensures p.IsBucket(k)
  {
    assert Nonempty(p.b, k);
    CutsInside(p.sw.values, p.b, |p.sw.values|, k + 1);
  }

  /** The buckets are in the order of their values. */
  lemma BucketOrder(p: Plan, j: nat, k: nat)
    requires p.Valid() && j < k && k + 1 < |p.b| && p.IsBucket(j) && p.IsBucket(k)
    ensures p.High(j) < p.Low(k)
  {
    CutsMonotone(p.sw.values, p.b, |p.sw.values|, j + 1, k);
    SameOrder(p.sw.values, p.b[j + 1] - 1, p.b[k]);
  }

  /** At most one bucket serves a value. */
  lemma OneServes(p: Plan, j: nat, k: nat, x: int)
    requires p.Valid() && p.IsBucket(k) && k + 1 < |p.b| && p.Serves(j, x)
    ensures x < p.Low(k) ==> j < k
    ensures x > p.High(k) ==> j > k
    ensures p.Serves(k, x) ==> j == k
  {
    ServesRange(p, j);
    ServesRange(p, k);
    if j < k {
      BucketOrder(p, j, k);
    } else if k < j {
      BucketOrder(p, k, j);
    }
  }

  lemma ServesRange(p: Plan, k: nat)
    requires p.Valid() && p.IsBucket(k)
    ensures p.Low(k) <= p.High(k)
  {
    SameOrder(p.sw.values, p.b[k], p.b[k + 1] - 1);
  }

  /** The search in the middle: the bucket decides, or one of the halves. */
  lemma DecidesMiddle(p: Plan, lb: nat, k: nat, ub: nat, x: int, o: Outcome)
    requires p.Valid() && lb <= k <= ub && ub + 1 < |p.b| && p.IsBucket(k)
    requires
      || (p.Serves(k, x) && o == p.Answer(k, x))
      || (x <= p.High(k) && p.Decides(lb, k - 1, x, o) && (p.Serves(k, x) ==> p.Answer(k, x) == To(p.sw.deflab)))
      || (x >= p.Low(k) && p.Decides(k + 1, ub, x, o) && (p.Serves(k, x) ==> p.Answer(k, x) == To(p.sw.deflab)))
    ensures p.Decides(lb, ub, x, o)
  {
    forall j: nat | lb <= j <= ub && p.Serves(j, x) ensures o == p.Answer(j, x) {
      OneServes(p, j, k, x);
      if p.Serves(k, x) {
        assert j == k;
        forall i: nat | lb <= i <= ub && i != k ensures !p.Serves(i, x) {
          if p.Serves(i, x) {
            OneServes(p, i, k, x);
          }
        }
      }
    }
  }

  lemma SplitRuns(s: Split, base: nat, n0: nat, nl: nat, nr: nat, n1: nat, x: int)
    requires s.Valid(base, n0, nl, nr, n1)
    ensures Runs(s.p, s.lb, s.ub, s.Code(), x)
  {
    CodeRuns(s, base, n0, nl, nr, n1, x);
    LowerRuns(s, base, n0, nl, nr, n1, x);
    UpperRuns(s, base, n0, nl, nr, n1, x);
    RunsLikeDecides(s, x, Exec(s.Code(), x));
  }

  lemma RunsLikeDecides(s: Split, x: int, r: Trace)
    requires s.p.Valid() && s.lb <= s.k <= s.ub && s.ub + 1 < |s.p.b| && s.p.IsBucket(s.k) && RunsLike(s, x, r)
    requires s.p.Decides(s.lb, s.k - 1, x, s.Lower(x).outcome) && Power2(s.Lower(x).passed) <= s.ub - s.lb + 1
    requires s.p.Decides(s.k + 1, s.ub, x, s.Upper(x).outcome) && Power2(s.Upper(x).passed) <= s.ub - s.lb + 1
    ensures s.p.Decides(s.lb, s.ub, x, r.outcome) && Power2(r.passed) <= s.ub - s.lb + 1
  {
    ServesRange(s.p, s.k);
    DecidesMiddle(s.p, s.lb, s.k, s.ub, x, r.outcome);
  }

  lemma SplitImplements(s: Split, base: nat, n0: nat, nl: nat, nr: nat, n1: nat)
    requires s.Valid(base, n0, nl, nr, n1)
    ensures Implements(s.p, s.lb, s.ub, s.Code(), base, n0, n1)
  {
    SplitFits(s, base, n0, nl, nr, n1);
    forall x: int ensures Runs(s.p, s.lb, s.ub, s.Code(), x) {
      SplitRuns(s, base, n0, nl, nr, n1, x);
    }
  }

  lemma LowerRuns(s: Split, base: nat, n0: nat, nl: nat, nr: nat, n1: nat, x: int)
    requires s.Valid(base, n0, nl, nr, n1)
    ensures s.p.Decides(s.lb, s.k - 1, x, s.Lower(x).outcome)
    ensures Power2(s.Lower(x).passed) <= s.ub - s.lb + 1
  {
    if s.lb < s.k {
      assert Runs(s.p, s.lb, s.k - 1, s.left, x);
    }
  }

  lemma UpperRuns(s: Split, base: nat, n0: nat, nl: nat, nr: nat, n1: nat, x: int)
    requires s.Valid(base, n0, nl, nr, n1)
    ensures s.p.Decides(s.k + 1, s.ub, x, s.Upper(x).outcome)
    ensures Power2(s.Upper(x).passed) <= s.ub - s.lb + 1
  {
    if s.k < s.ub {
      assert Runs(s.p, s.k + 1, s.ub, s.right, x);
    }
  }

  lemma SplitFits(s: Split, base: nat, n0: nat, nl: nat, nr: nat, n1: nat)
    requires s.Valid(base, n0, nl, nr, n1)
    ensures Fits(s.Code(), base, n0, n1)
  {
    FitsWider(s.left, base, nl, nr, n0, n1);
    FitsWider(s.right, base, nr, n1, n0, n1);
    HeadFits(s, base, n0, nl, nr, n1);
    forall i: nat | i < |s.Left()| ensures OpFits(s.Left()[i], base, n0, n1) {
      assert i > 0 ==> s.Left()[i] == s.left[i - 1];
    }
    forall i: nat | i < |s.Right()| ensures OpFits(s.Right()[i], base, n0, n1) {
      assert i > 0 ==> s.Right()[i] == s.right[i - 1];
    }
  }

  lemma FitsWider(code: seq<Op>, base: nat, n0: nat, n1: nat, m0: nat, m1: nat)
    requires code == [] || (Fits(code, base, n0, n1) && m0 <= n0 <= n1 <= m1)
    ensures Fits(code, base, m0, m1)
  {
    forall i: nat | i < |code| ensures OpFits(code[i], base, m0, m1) {
      assert OpFits(code[i], base, n0, n1);
    }
  }

  lemma HeadFits(s: Split, base: nat, n0: nat, nl: nat, nr: nat, n1: nat)
    requires s.Valid(base, n0, nl, nr, n1)
    ensures Fits(s.Head(), base, n0, n1)
  {
    assert AllInts(s.p.Values(s.k));
    forall i: nat | i < |s.p.Labels(s.k)| ensures s.p.Labels(s.k)[i] < base {
      assert s.p.Labels(s.k)[i] == s.p.sw.labels[s.p.b[s.k] + i];
    }
    if s.p.Big(s.k) {
      EntriesOld(s.p.Values(s.k), s.p.Labels(s.k), s.p.sw.deflab, 0, Unsigned(s.p.Low(s.k)), base);
    }
  }

  /** The code behind its label. */
  function Body(part: seq<Op>): seq<Op> {
    if part == [] then [] else part[1..]
  }

  /** The code for a half of the search, behind its label, if the half has any buckets. */
  ghost predicate IsHalf(p: Plan, lab: nat, lb: nat, ub: int, part: seq<Op>, base: nat, n0: nat, n1: nat)
    requires p.sw.Valid()
  {
    if lb <= ub then part == [Define(lab)] + Body(part) && Implements(p, lb, ub, Body(part), base, n0, n1)
    else part == [] && n0 == n1
  }

  /** The labels of the halves: new ones, and different, for halves that have buckets. */
  predicate HalfLabels(deflab: nat, lb: nat, k: nat, ub: nat, lolab: nat, hilab: nat, n0: nat, n1: nat) {
    && (if lb < k then n0 <= lolab < n1 else lolab == deflab)
    && (if k < ub then n0 <= hilab < n1 else hilab == deflab)
    && (lb < k < ub ==> lolab != hilab)
  }

  lemma Halves(s: Split, lower: seq<Op>, upper: seq<Op>, base: nat, n0: nat, nl: nat, nr: nat, n1: nat)
    requires s.p.Valid() && s.p.sw.Older(base) && base <= n0 <= nl <= nr <= n1
    requires s.lb <= s.ub && s.ub + 1 < |s.p.b| && s.k == (s.lb + s.ub) / 2 && s.p.IsBucket(s.k)
    requires HalfLabels(s.p.sw.deflab, s.lb, s.k, s.ub, s.lolab, s.hilab, n0, nl)
    requires s.left == Body(lower) && s.right == Body(upper)
    requires IsHalf(s.p, s.lolab, s.lb, s.k - 1, lower, base, nl, nr)
    requires IsHalf(s.p, s.hilab, s.k + 1, s.ub, upper, base, nr, n1)
    ensures Implements(s.p, s.lb, s.ub, HeadOf(s.p, s.k, s.lb, s.ub, s.lolab, s.hilab) + (lower + upper), base, n0, n1)
  {
    SplitImplements(s, base, n0, nl, nr, n1);
  }

  lemma Assemble(a: seq<Op>, b: seq<Op>, c: seq<Op>, d: seq<Op>)
    ensures a + b + c + d == a + (b + (c + d))
  {
  }

  class Generator {
    const p: Plan
    var code: seq<Op>
    var next: nat         // the next label to make

    constructor (p: Plan, next: nat)
      ensures this.p == p && this.next == next && code == []
    {
      this.p, this.next, code := p, next, [];
    }

    method GenLabel() returns (l: nat)
      modifies this`next
      ensures l == old(next) && next == l + 1
    {
      l := next;
      next := next + 1;
    }

    method Emit(op: Op)
      modifies this`code
      ensures code == old(code) + [op]
    {
      code := code + [op];
    }

    /** The comparisons of bucket k, or its table. */
    method Bucket(k: nat, lb: nat, ub: nat, lolab: nat, hilab: nat)
      requires p.sw.Valid() && p.IsBucket(k) && lb <= k <= ub && (lb == k == ub ==> lolab == hilab)
      modifies this`code
      ensures code == old(code) + HeadOf(p, k, lb, ub, lolab, hilab)
    {
      var l, u := p.b[k], p.b[k + 1] - 1;
      if u - l + 1 <= 3 {
        Compare(k);
        assert old(code) + HeadOf(p, k, lb, ub, lolab, hilab) == code + [GuardOf(p, k, lb, ub, lolab, hilab)];
        if lb < k {
          Emit(IfAbove(p.sw.values[u], hilab));
        } else if k < ub {
          Emit(IfBelow(p.sw.values[l], lolab));
        } else {
          Emit(Goto(lolab));
        }
      } else {
        Emit(IfBelow(p.sw.values[l], lolab));
        Emit(IfAbove(p.sw.values[u], hilab));
        ViaTable(k);
      }
    }

    /** The jump through the table of bucket k. */
    method ViaTable(k: nat)
      requires p.sw.Valid() && p.IsBucket(k)
      modifies this`code
      ensures code == old(code) + [TableOf(p, k)]
    {
      var table := FillTable(p.Values(k), p.Labels(k), p.sw.deflab);
      Emit(Op.ViaTable(p.Low(k), table));
    }

    method Compare(k: nat)
      requires p.IsBucket(k)
      modifies this`code
      ensures code == old(code) + Chain(p.Values(k), p.Labels(k))
    {
      var i: nat, u := p.b[k], p.b[k + 1] - 1;
      ghost var chain := Chain(p.Values(k), p.Labels(k));
      while i <= u
        invariant p.b[k] <= i <= u + 1
        invariant code == old(code) + chain[..i - p.b[k]]
      {
        assert chain[..i + 1 - p.b[k]] == chain[..i - p.b[k]] + [IfEqual(p.sw.values[i], p.sw.labels[i])];
        Emit(IfEqual(p.sw.values[i], p.sw.labels[i]));
        i := i + 1;
      }
    }

    /** Make labels for the halves that have buckets; the others go to the default label. */
    method MakeLabels(lb: nat, k: nat, ub: nat) returns (lolab: nat, hilab: nat)
      modifies this`next
      ensures old(next) <= next && HalfLabels(p.sw.deflab, lb, k, ub, lolab, hilab, old(next), next)
    {
      lolab, hilab := p.sw.deflab, p.sw.deflab;
      if lb < k {
        lolab := GenLabel();
      }
      if k < ub {
        hilab := GenLabel();
      }
    }

    /** The code for the buckets lb..ub. */
    method Search(lb: nat, ub: nat, ghost base: nat) returns (ghost part: seq<Op>)
      requires p.Valid() && p.sw.Older(base) && lb <= ub && ub + 1 < |p.b| && base <= next
      modifies this`code, this`next
      ensures code == old(code) + part && old(next) <= next
      ensures Implements(p, lb, ub, part, base, old(next), next)
      decreases ub - lb, 1
    {
      var k := (lb + ub) / 2;
      var lolab, hilab := MakeLabels(lb, k, ub);
      ghost var nl := next;
      BucketExists(p, k);
      Bucket(k, lb, ub, lolab, hilab);
      ghost var lower := Half(lolab, lb, k - 1, base);
      ghost var nr := next;
      ghost var upper := Half(hilab, k + 1, ub, base);
      ghost var s := Split(p, lb, ub, k, lolab, hilab, Body(lower), Body(upper));
      Halves(s, lower, upper, base, old(next), nl, nr, next);
      part := HeadOf(p, k, lb, ub, lolab, hilab) + (lower + upper);
      Assemble(old(code), HeadOf(p, k, lb, ub, lolab, hilab), lower, upper);
    }

    /** A half of the search, if it has any buckets, behind its label. */
    method Half(lab: nat, lb: nat, ub: int, ghost base: nat) returns (ghost part: seq<Op>)
      requires p.Valid() && p.sw.Older(base) && lb <= ub + 1 && ub + 1 < |p.b| && base <= next
      modifies this`code, this`next
      ensures code == old(code) + part && old(next) <= next
      ensures IsHalf(p, lab, lb, ub, part, base, old(next), next)
      decreases ub - lb + 1, 0
    {
      part := [];
      if lb <= ub {
        Emit(Define(lab));
        var body := Search(lb, ub, base);
        part := [Define(lab)] + body;
        assert Body(part) == body;
      }
    }
  }

  // ----- The theorem -----

  /** The code sends x where the switch statement says. */
  predicate RightFor(sw: Switch, code: seq<Op>, x: int)
    requires |sw.values| == |sw.labels|
  {
    Exec(code, x).outcome == To(sw.Meaning(x))
  }

  /** Some bucket of more than three cases, which gets a table, jumps over -1, or has entries that
      cannot be reached. */
  ghost predicate Misserves(p: Plan) {
    exists k: nat ::
      p.IsBucket(k) && p.b[k + 1] - p.b[k] > 3 && (Skips(p.Values(k)) || Unreachable(p.Values(k)))
  }

  lemma {:induction false} BucketOf(p: Plan, i: nat, k: nat) returns (j: nat)
    requires p.Valid() && k < |p.b| && p.b[k] <= i < |p.sw.values|
    ensures p.IsBucket(j) && p.b[j] <= i < p.b[j + 1]
    decreases |p.b| - k
  {
    BucketExists(p, k);
    j := k;
    if p.b[k + 1] <= i {
      j := BucketOf(p, i, k + 1);
    }
  }

  /** Within the range of a bucket, its cases are all the cases. */
  lemma SameLabel(p: Plan, k: nat, x: int)
    requires p.Valid() && p.Serves(k, x)
    ensures LabelOf(p.Values(k), p.Labels(k), p.sw.deflab, x) == p.sw.Meaning(x)
  {
    var v := p.sw.values;
    if x in v {
      var i := IndexOf(v, x);
      SameOrder(v, i, p.b[k]);
      SameOrder(v, i, p.b[k + 1] - 1);
      LabelWithin(p, k, x, i);
    } else {
      assert forall i: nat :: i < |p.Values(k)| ==> p.Values(k)[i] == v[p.b[k] + i];
    }
  }

  lemma LabelWithin(p: Plan, k: nat, x: int, i: nat)
    requires p.Valid() && p.IsBucket(k) && p.b[k] <= i < p.b[k + 1] && p.sw.values[i] == x
    ensures LabelOf(p.Values(k), p.Labels(k), p.sw.deflab, x) == p.sw.labels[i]
  {
    assert p.Values(k)[i - p.b[k]] == x;
    BucketAscending(p, k);
    IndexUnique(p.Values(k), x, i - p.b[k]);
  }

  lemma BucketAscending(p: Plan, k: nat)
    requires p.Valid() && p.IsBucket(k)
    ensures StrictlyAscending(p.Values(k)) && AllInts(p.Values(k))
  {
    forall i: nat, j: nat | i < j < |p.Values(k)|
      ensures InOrder(p.Values(k), i, j) && p.Values(k)[i] != p.Values(k)[j] {
      SameOrder(p.sw.values, p.b[k] + i, p.b[k] + j);
    }
  }

  /** A bucket's answer is right, unless it comes out of a table that is wrong for x. */
  lemma AnswerRight(p: Plan, k: nat, x: int)
    requires p.Valid() && p.Serves(k, x)
    ensures AllInts(p.Values(k))
    ensures p.Answer(k, x) == To(p.sw.Meaning(x)) <==> !p.Big(k) || RightAt(p.Values(k), p.Labels(k), p.sw.deflab, x)
  {
    SameLabel(p, k, x);
    BucketAscending(p, k);
  }

  lemma CaseServed(p: Plan, x: int) returns (k: nat)
    requires p.Valid() && x in p.sw.values
    ensures k < p.Count() && p.Serves(k, x)
  {
    var i := IndexOf(p.sw.values, x);
    k := BucketOf(p, i, 0);
    SameOrder(p.sw.values, p.b[k], i);
    SameOrder(p.sw.values, i, p.b[k + 1] - 1);
  }

  lemma ServedRight(p: Plan, k: nat, x: int)
    requires p.Valid() && p.Serves(k, x) && !Misserves(p)
    ensures p.Answer(k, x) == To(p.sw.Meaning(x))
  {
    AnswerRight(p, k, x);
    BucketAscending(p, k);
    if p.Big(k) {
      TableRightAt(p.Values(k), p.Labels(k), p.sw.deflab, x);
    }
  }

  lemma RightIfServed(p: Plan, code: seq<Op>, x: int)
    requires p.Valid() && Runs(p, 0, p.Count() - 1, code, x) && !Misserves(p)
    ensures RightFor(p.sw, code, x)
  {
    if x in p.sw.values {
      var k := CaseServed(p, x);
      ServedRight(p, k, x);
    } else if k: nat :| k < p.Count() && p.Serves(k, x) {
      ServedRight(p, k, x);
    }
  }

  lemma WrongIfMisserved(p: Plan, code: seq<Op>, base: nat, n0: nat, n1: nat) returns (x: int)
    requires p.Valid() && p.sw.deflab !in p.sw.labels && Misserves(p)
    requires Implements(p, 0, p.Count() - 1, code, base, n0, n1)
    ensures IsInt(x) && !RightFor(p.sw, code, x)
  {
    var k;
    k, x := MisservedBy(p);
    assert Runs(p, 0, p.Count() - 1, code, x);
    assert p.Serves(k, x);
  }

  /** A bucket that misserves a value. */
  lemma MisservedBy(p: Plan) returns (k: nat, x: int)
    requires p.Valid() && p.sw.deflab !in p.sw.labels && Misserves(p)
    ensures k < p.Count() && p.Serves(k, x) && IsInt(x) && p.Answer(k, x) != To(p.sw.Meaning(x))
  {
    k :| p.IsBucket(k) && p.b[k + 1] - p.b[k] > 3 && (Skips(p.Values(k)) || Unreachable(p.Values(k)));
    BucketAscending(p, k);
    x := TableWrong(p.Values(k), p.Labels(k), p.sw.deflab);
    assert p.Serves(k, x);
    AnswerRight(p, k, x);
  }

  /** The code does what the switch statement says for every int exactly when no table jumps over
      -1 or has entries that cannot be reached; and it always passes at most log2(buckets) buckets
      before the one that decides. */
  lemma RightIff(p: Plan, code: seq<Op>, base: nat, n0: nat, n1: nat)
    requires p.Valid() && p.sw.deflab !in p.sw.labels && Implements(p, 0, p.Count() - 1, code, base, n0, n1)
    ensures (forall x: int {:trigger RightFor(p.sw, code, x)} :: IsInt(x) ==> RightFor(p.sw, code, x)) <==>
      !Misserves(p)
    ensures forall x: int {:trigger Exec(code, x)} :: Power2(Exec(code, x).passed) <= p.Count()
  {
    if Misserves(p) {
      var x := WrongIfMisserved(p, code, base, n0, n1);
    } else {
      forall x: int | IsInt(x) ensures RightFor(p.sw, code, x) {
        assert Runs(p, 0, p.Count() - 1, code, x);
        RightIfServed(p, code, x);
      }
    }
    forall x: int ensures Power2(Exec(code, x).passed) <= p.Count() {
      assert Runs(p, 0, p.Count() - 1, code, x);
    }
  }

  /** Generate the code of a switch statement, for the buckets it is grouped into. */
  method Generate(sw: Switch, density: real, base: nat) returns (code: seq<Op>, p: Plan)
    requires sw.Valid() && sw.Older(base) && sw.deflab !in sw.labels
    ensures p.sw == sw && p.Valid() && IsBucketing(sw.values, density, p.b)
    ensures (forall x: int {:trigger RightFor(sw, code, x)} :: IsInt(x) ==> RightFor(sw, code, x)) <==> !Misserves(p)
    ensures (forall k: nat :: p.IsBucket(k) ==> p.b[k + 1] - p.b[k] <= 3) ==>
      forall x: int {:trigger RightFor(sw, code, x)} :: IsInt(x) ==> RightFor(sw, code, x)
    ensures |sw.values| <= 3 ==> forall x: int {:trigger RightFor(sw, code, x)} :: IsInt(x) ==> RightFor(sw, code, x)
    ensures forall x: int {:trigger Exec(code, x)} :: Power2(Exec(code, x).passed) <= p.Count()
  {
    var buckets, n := Group(sw.values, density);
    p := Plan(sw, buckets[..n + 1]);
    var gen := new Generator(p, base);
    ghost var part := gen.Search(0, n - 1, base);
    code := gen.code;
    assert code == part;
    RightIff(p, code, base, base, gen.next);
    FewInBuckets(p);
  }

  lemma FewInBuckets(p: Plan)
    requires p.Valid()
    ensures |p.sw.values| <= 3 ==> forall k: nat :: p.IsBucket(k) ==> p.b[k + 1] - p.b[k] <= 3
  {
  }

  lemma SkipsWithin(p: Plan, k: nat)
    requires p.Valid() && p.IsBucket(k) && Skips(p.Values(k))
    ensures Skips(p.sw.values)
  {
    var i: nat :| SkipsAt(p.Values(k), i);
    assert SkipsAt(p.sw.values, p.b[k] + i);
  }

  lemma ReachableWithin(p: Plan, k: nat)
    requires p.Valid() && p.IsBucket(k) && !Unreachable(p.sw.values) && -0x1000_0000 !in p.sw.values
    ensures !Unreachable(p.Values(k))
  {
    var v := p.sw.values;
    SameOrder(v, 0, p.b[k]);
    SameOrder(v, p.b[k], p.b[k + 1] - 1);
    SameOrder(v, p.b[k + 1] - 1, |v| - 1);
    FarWithin(v[0], v[|v| - 1], p.Low(k), p.High(k));
  }

  /** Cases that stay on one side of -1, or include it, are not far apart as a whole, and do not
      include -2^28, are always right. */
  lemma OneSided(p: Plan)
    requires p.Valid() && !Skips(p.sw.values) && !Unreachable(p.sw.values) && -0x1000_0000 !in p.sw.values
    ensures !Misserves(p)
  {
    forall k: nat | p.IsBucket(k) ensures !Skips(p.Values(k)) && !Unreachable(p.Values(k)) {
      if Skips(p.Values(k)) {
        SkipsWithin(p, k);
      }
      ReachableWithin(p, k);
    }
  }

  /** The three lowest ints and the highest: the size of the whole range wraps around to 0, so there
      is only one bucket, and not all of its entries can be reached. */
  lemma WideExample(p: Plan)
    requires p.Valid() && IsBucketing(p.sw.values, 0.5, p.b)
    requires p.sw.values == [-0x8000_0000, -0x7fff_ffff, -0x7fff_fffe, 0x7fff_ffff]
    ensures p.b == [0, 4] && Misserves(p)
  {
    forall j: nat | 1 <= j < 4 ensures DenseEnough(p.sw.values, 0.5, 0, j) {
    }
    OnlyOneBucket(p, 0.5);
    assert p.IsBucket(0) && Unreachable(p.Values(0));
  }

  /** The four ints around 2^28: 8 times the third is no int any more, so that its entry is looked for
      2^32 bytes below. */
  lemma CloseExample(p: Plan, density: real)
    requires p.Valid() && density <= 1.0 && IsBucketing(p.sw.values, density, p.b)
    requires p.sw.values == [0x0fff_fffe, 0x0fff_ffff, 0x1000_0000, 0x1000_0001]
    ensures p.b == [0, 4] && Misserves(p)
    ensures !Skips(p.sw.values) && TableOffset(0x0fff_fffe, 0x1000_0000) == 16 - WORD
  {
    forall j: nat | 1 <= j < 4 ensures DenseEnough(p.sw.values, density, 0, j) {
      DenseEnoughIff(p.sw.values, density, 0, j);
    }
    OnlyOneBucket(p, density);
    assert p.IsBucket(0) && Unreachable(p.Values(0));
  }

  /** The case -2^28: 8 times it is an int, but its negative is not, so that not even its own entry is
      found. */
  lemma LowestExample(p: Plan, density: real)
    requires p.Valid() && density <= 1.0 && IsBucketing(p.sw.values, density, p.b)
    requires p.sw.values == [-0x1000_0000, -0x0fff_ffff, -0x0fff_fffe, -0x0fff_fffd]
    ensures p.b == [0, 4] && Misserves(p)
    ensures !Skips(p.sw.values) && TableOffset(-0x1000_0000, -0x1000_0000) == -WORD
  {
    forall j: nat | 1 <= j < 4 ensures DenseEnough(p.sw.values, density, 0, j) {
      DenseEnoughIff(p.sw.values, density, 0, j);
    }
    OnlyOneBucket(p, density);
    assert p.IsBucket(0) && Unreachable(p.Values(0));
  }

  /** Four cases of which the first with any others are dense are all in one bucket. */
  lemma OnlyOneBucket(p: Plan, density: real)
    requires p.Valid() && |p.sw.values| == 4 && IsBucketing(p.sw.values, density, p.b)
    requires forall j: nat :: 1 <= j < 4 ==> DenseEnough(p.sw.values, density, 0, j)
    ensures p.b == [0, 4]
  {
    assert Nonempty(p.b, 0);
    if 2 < |p.b| {
      FirstTwoApart(p, density);
    }
  }

  lemma FirstTwoApart(p: Plan, density: real)
    requires p.Valid() && IsBucketing(p.sw.values, density, p.b) && 2 < |p.b|
    ensures 1 <= p.b[2] - 1 < |p.sw.values| && !DenseEnough(p.sw.values, density, 0, p.b[2] - 1)
  {
    assert Nonempty(p.b, 0) && Nonempty(p.b, 1) && Apart(p.sw.values, density, p.b, 1);
  }
}
