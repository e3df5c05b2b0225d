/** Grouping the sorted cases of a switch statement into buckets. */
module Buckets {
  import opened Bits
  import opened Switches

  /** Whether the cases i..j fill the range of their values densely enough. The size of the range is
      an int; when it wraps around to 0 the quotient is infinite, when it is negative so is the quotient. */
  predicate DenseEnough(v: seq<int>, density: real, i: nat, j: nat)
    requires i <= j < |v|
  {
    var size := WrapInt(WrapInt(v[j] - v[i]) + 1);
    size == 0 || (j - i + 1) as real / size as real >= density
  }

  /** Where the size of the range is an int, this is the density of the cases in it. */
  lemma DenseEnoughIff(v: seq<int>, density: real, i: nat, j: nat)
    requires i <= j < |v| && StrictlyAscending(v) && IsInt(v[j] - v[i] + 1)
    ensures v[j] - v[i] + 1 > 0
    ensures DenseEnough(v, density, i, j) <==> (j - i + 1) as real / (v[j] - v[i] + 1) as real >= density
  {
    assert i < j ==> InOrder(v, i, j);
  }

  /** s holds the first index of each bucket, and behind them the number of cases k. */
  ghost predicate Cuts(v: seq<int>, s: seq<nat>, k: nat) {
    && 0 < |s| && s[0] == 0 && s[|s| - 1] == k <= |v|
    && (forall n: nat {:trigger Nonempty(s, n)} :: n + 1 < |s| ==> Nonempty(s, n))
  }

  predicate Nonempty(s: seq<nat>, n: nat)
    requires n + 1 < |s|
  {
    s[n] < s[n + 1]
  }

  /** Bucket n holds a single case, or is dense enough. */
  ghost predicate Dense(v: seq<int>, density: real, s: seq<nat>, n: nat)
    requires StrictlyAscending(v) && n + 1 < |s|
  {
    s[n] < s[n + 1] <= |v| && (s[n + 1] == s[n] + 1 || DenseEnough(v, density, s[n], s[n + 1] - 1))
  }

  /** Buckets n - 1 and n together would not be dense enough. */
  ghost predicate Apart(v: seq<int>, density: real, s: seq<nat>, n: nat)
    requires StrictlyAscending(v) && 0 < n && n + 1 < |s|
  {
    s[n - 1] < s[n + 1] <= |v| && !DenseEnough(v, density, s[n - 1], s[n + 1] - 1)
  }

  /** The buckets partition the first k cases, each is dense enough, and no two neighbours up to
      bucket last could be one bucket. */
  ghost predicate Grouped(v: seq<int>, density: real, s: seq<nat>, k: nat, last: int)
    requires StrictlyAscending(v)
  {
    && Cuts(v, s, k)
    && (forall n: nat {:trigger Dense(v, density, s, n)} :: n + 1 < |s| ==> Dense(v, density, s, n))
    && (forall n: nat {:trigger Apart(v, density, s, n)} :: 0 < n <= last && n + 1 < |s| ==> Apart(v, density, s, n))
  }

  ghost predicate IsBucketing(v: seq<int>, density: real, s: seq<nat>)
    requires StrictlyAscending(v)
  {
    Grouped(v, density, s, |v|, |s|)
  }

  /** One more case, in a bucket of its own. */
  lemma OpenBucket(v: seq<int>, density: real, s: seq<nat>, k: nat)
    requires StrictlyAscending(v) && k < |v| && Grouped(v, density, s, k, |s|)
    ensures Grouped(v, density, s + [k + 1], k + 1, |s| - 2)
  {
    var s' := s + [k + 1];
    forall n: nat | n + 1 < |s'| ensures Nonempty(s', n) && Dense(v, density, s', n) {
      if n + 1 < |s| {
        assert Nonempty(s, n) && Dense(v, density, s, n);
      }
    }
    forall n: nat | 0 < n <= |s| - 2 && n + 1 < |s'| ensures Apart(v, density, s', n) {
      assert Apart(v, density, s, n);
    }
  }

  /** The last two buckets become one. */
  lemma MergeBuckets(v: seq<int>, density: real, s: seq<nat>, k: nat)
    requires StrictlyAscending(v) && 0 < k <= |v| && 2 < |s| && Grouped(v, density, s, k, |s| - 3)
    requires s[|s| - 3] < k && DenseEnough(v, density, s[|s| - 3], k - 1)
    ensures Grouped(v, density, s[..|s| - 2] + [k], k, |s| - 4)
  {
    var s' := s[..|s| - 2] + [k];
    forall n: nat | n + 1 < |s'| ensures Nonempty(s', n) && Dense(v, density, s', n) {
      if n + 1 < |s'| - 1 {
        assert Nonempty(s, n) && Dense(v, density, s, n);
      }
    }
    forall n: nat | 0 < n <= |s| - 4 && n + 1 < |s'| ensures Apart(v, density, s', n) {
      assert Apart(v, density, s, n);
    }
  }

  lemma CutsInside(v: seq<int>, s: seq<nat>, k: nat, n: nat)
    requires Cuts(v, s, k) && n < |s|
    ensures s[n] <= k && (n + 1 < |s| ==> s[n] < k)
    decreases |s| - n
  {
    if n + 1 < |s| {
      assert Nonempty(s, n);
      CutsInside(v, s, k, n + 1);
    }
  }

  lemma LastApart(v: seq<int>, density: real, s: seq<nat>, k: nat, n: nat)
    requires StrictlyAscending(v) && 0 < k <= |v| && 0 < n == |s| - 2 && Grouped(v, density, s, k, n - 1)
    requires s[n - 1] < k && !DenseEnough(v, density, s[n - 1], k - 1)
    ensures Grouped(v, density, s, k, n)
  {
    forall i: nat | 0 < i <= n && i + 1 < |s| ensures Apart(v, density, s, i) {
      assert i < n ==> Apart(v, density, s, i);
    }
  }

  /** Group the cases, greedily from the left: a new case starts a bucket, and buckets are merged
      from the right as long as the result is dense enough. */
  method Group(v: seq<int>, density: real) returns (buckets: array<nat>, n: nat)
    requires StrictlyAscending(v) && 0 < |v|
    ensures 0 < n < buckets.Length && IsBucketing(v, density, buckets[..n + 1])
    ensures fresh(buckets)
  {
    buckets := new nat[|v| + 1];
    n := 0;
    ghost var s: seq<nat> := [0];
    for k := 0 to |v|
      invariant n <= k && n + 1 == |s| && s[..n] == buckets[..n]
      invariant Grouped(v, density, s, k, n) && (k > 0 ==> n > 0)
    {
      buckets[n] := k;
      OpenBucket(v, density, s, k);
      s := s + [k + 1];
      n := MergeBack(v, density, buckets, n, k, s);
      s := buckets[..n + 1] + [k + 1];
      n := n + 1;
    }
    buckets[n] := |v|;
    assert buckets[..n + 1] == s;
  }

  /** Merge the bucket that ends with case k into its predecessors. */
  method MergeBack(v: seq<int>, density: real, buckets: array<nat>, n0: nat, k: nat, ghost s0: seq<nat>)
      returns (n: nat)
    requires StrictlyAscending(v) && n0 <= k < |v| < buckets.Length
    requires s0 == buckets[..n0 + 1] + [k + 1] && Grouped(v, density, s0, k + 1, n0 - 1)
    ensures n <= n0
    ensures Grouped(v, density, buckets[..n + 1] + [k + 1], k + 1, n)
  {
    n := n0;
    ghost var s := s0;
    while n > 0
      invariant n <= n0 && s == buckets[..n + 1] + [k + 1] && Grouped(v, density, s, k + 1, n - 1)
    {
      CutsInside(v, s, k + 1, n - 1);
      if !DenseEnough(v, density, buckets[n - 1], k) {
        LastApart(v, density, s, k + 1, n);
        return;
      }
      MergeBuckets(v, density, s, k + 1);
      n := n - 1;
      s := s[..|s| - 2] + [k + 1];
    }
  }
}
