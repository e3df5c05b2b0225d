/** Live intervals over component numbers. */
module Intervals {
  import opened Icode
  import Scc

  /** The components beg..end cover every occurrence of n. */
  datatype Interval = Interval(n: Local, beg: nat, end: nat)

  /** The id-th local of the floating-point or the integer class. */
  function Mk(fp: bool, id: nat): (v: Local)
    ensures v != Special
  {
    if fp then FpVar(id) else IntVar(id)
  }

  /** What is scanned: the variables of components 1..scn, and the locals of one class. */
  datatype Source = Source(sccVars: seq<set<Local>>, scn: nat, fp: bool, num: nat) {

    ghost predicate Occurs(v: Local, k: nat) {
      1 <= k <= scn < |sccVars| && v in sccVars[k]
    }

    /** Local id occurs in component k, which is above i, or is i and id is below j. */
    ghost predicate Met(i: nat, j: nat, id: nat, k: nat) {
      Occurs(Mk(fp, id), k) && (i < k || (i == k && id < j))
    }

    /** lr spans from the first to the last component where its local occurs. */
    ghost predicate IsHull(lr: Interval) {
      && (exists id: nat :: id < num && lr.n == Mk(fp, id))
      && Occurs(lr.n, lr.beg) && Occurs(lr.n, lr.end)
      && (forall k: nat :: Occurs(lr.n, k) ==> lr.beg <= k <= lr.end)
    }

    /** lrs[first..] holds the hull of every local that occurs, once, by increasing end. */
    ghost predicate AreHulls(lrs: seq<Interval>, first: nat) {
      && first <= |lrs| == num
      && (forall i :: first <= i < num ==> IsHull(lrs[i]))
      && (forall i, j :: first <= i < j < num ==> lrs[i].n != lrs[j].n)
      && (forall i, j :: first <= i < j < num ==> lrs[i].end <= lrs[j].end)
      && (forall id: nat, k: nat :: id < num && Occurs(Mk(fp, id), k) ==>
            exists i :: first <= i < num && lrs[i].n == Mk(fp, id))
    }
  }

  /** lrange maps the local of each interval to the interval's index; other locals to -1. */
  ghost predicate Indexed(src: Source, lrs: seq<Interval>, cur: int, lrange: seq<int>) {
    && |lrs| == |lrange| == src.num && -1 <= cur < src.num
    && (forall id: nat :: id < src.num ==> lrange[id] == -1 || cur < lrange[id] < src.num)
    && (forall id: nat :: id < src.num && lrange[id] != -1 ==> lrs[lrange[id]].n == Mk(src.fp, id))
    && (forall x {:trigger Owned(lrange, x)} :: cur < x < src.num ==> Owned(lrange, x))
  }

  ghost predicate Owned(lrange: seq<int>, x: int) {
    exists id: nat :: id < |lrange| && lrange[id] == x
  }

  ghost function Owner(lrange: seq<int>, x: int): (id: nat)
    requires Owned(lrange, x)
    ensures id < |lrange| && lrange[id] == x
  {
    var id: nat :| id < |lrange| && lrange[id] == x;
    id
  }

  /** The intervals found so far all begin at component i or later and are sorted by end. */
  ghost predicate Sorted(lrs: seq<Interval>, cur: int, i: nat)
    requires -1 <= cur
  {
    && (forall x :: cur < x < |lrs| ==> i <= lrs[x].beg <= lrs[x].end)
    && (forall x, y :: cur < x < y < |lrs| ==> lrs[x].end <= lrs[y].end)
  }

  /** The interval of local id, if any, is the hull of its occurrences met so far. */
  ghost predicate Covers(src: Source, lrs: seq<Interval>, lrange: seq<int>, i: nat, j: nat, id: nat)
    requires id < |lrange| && (lrange[id] == -1 || 0 <= lrange[id] < |lrs|)
  {
    && (lrange[id] != -1 ==> src.Met(i, j, id, lrs[lrange[id]].beg) && src.Met(i, j, id, lrs[lrange[id]].end))
    && (forall k: nat :: src.Met(i, j, id, k) ==> lrange[id] != -1 && lrs[lrange[id]].beg <= k <= lrs[lrange[id]].end)
  }

  ghost predicate Scanned(src: Source, lrs: seq<Interval>, cur: int, lrange: seq<int>, i: nat, j: nat) {
    && Indexed(src, lrs, cur, lrange)
    && Sorted(lrs, cur, i)
    && (forall id: nat :: id < src.num ==> Covers(src, lrs, lrange, i, j, id))
  }

  /** While a local has no interval, there is room for one. */
  lemma Room(src: Source, lrs: seq<Interval>, cur: int, lrange: seq<int>, id: nat)
    requires Indexed(src, lrs, cur, lrange) && id < src.num && lrange[id] == -1
    ensures 0 <= cur
  {
    var owner: seq<nat> := [];
    while |owner| < src.num - 1 - cur
      invariant |owner| <= src.num - 1 - cur
      invariant forall k :: 0 <= k < |owner| ==> owner[k] < src.num && lrange[owner[k]] == cur + 1 + k
    {
      owner := owner + [Owner(lrange, cur + 1 + |owner|)];
    }
    Scc.DistinctBound([id] + owner, src.num);
  }

  lemma StartInterval(src: Source, lrs: seq<Interval>, cur: int, lrange: seq<int>, pos: nat, id: nat)
    requires Scanned(src, lrs, cur, lrange, pos, id) && 0 <= cur
    requires id < src.num && src.Occurs(Mk(src.fp, id), pos) && lrange[id] == -1
    ensures Scanned(src, lrs[cur := Interval(Mk(src.fp, id), pos, pos)], cur - 1, lrange[id := cur], pos, id + 1)
  {
    var lrs', lrange' := lrs[cur := Interval(Mk(src.fp, id), pos, pos)], lrange[id := cur];
    forall x | cur - 1 < x < src.num ensures Owned(lrange', x) {
      if x == cur {
        assert lrange'[id] == x;
      } else {
        assert lrange'[Owner(lrange, x)] == x;
      }
    }
    var next: nat := id + 1;
    forall id': nat | id' < src.num ensures Covers(src, lrs', lrange', pos, next, id') {
      assert Covers(src, lrs, lrange, pos, id, id');
      NextLocal(src, pos, id, next, id');
    }
  }

  lemma ExtendInterval(src: Source, lrs: seq<Interval>, cur: int, lrange: seq<int>, pos: nat, id: nat)
    requires Scanned(src, lrs, cur, lrange, pos, id)
    requires id < src.num && src.Occurs(Mk(src.fp, id), pos) && lrange[id] != -1
    ensures Scanned(src, lrs[lrange[id] := lrs[lrange[id]].(beg := pos)], cur, lrange, pos, id + 1)
  {
    var lrs' := lrs[lrange[id] := lrs[lrange[id]].(beg := pos)];
    var next: nat := id + 1;
    forall id': nat | id' < src.num ensures Covers(src, lrs', lrange, pos, next, id') {
      assert Covers(src, lrs, lrange, pos, id, id');
      NextLocal(src, pos, id, next, id');
    }
  }

  /** Moving on from local id meets at most the occurrence of id itself in component pos. */
  lemma NextLocal(src: Source, pos: nat, id: nat, next: nat, id': nat)
    requires next == id + 1
    ensures forall k: nat :: src.Met(pos, id, id', k) ==> src.Met(pos, next, id', k)
    ensures forall k: nat :: src.Met(pos, next, id', k) ==> src.Met(pos, id, id', k) || (id' == id && k == pos)
  {
  }

  /** A local that is not in component i needs no change. */
  lemma Skip(src: Source, lrs: seq<Interval>, cur: int, lrange: seq<int>, i: nat, id: nat)
    requires 1 <= i <= src.scn < |src.sccVars| && id < src.num && Mk(src.fp, id) !in src.sccVars[i]
    requires Scanned(src, lrs, cur, lrange, i, id)
    ensures Scanned(src, lrs, cur, lrange, i, id + 1)
  {
    var next: nat := id + 1;
    forall id': nat | id' < src.num ensures Covers(src, lrs, lrange, i, next, id') {
      assert Covers(src, lrs, lrange, i, id, id');
      NextLocal(src, i, id, next, id');
      assert !src.Met(i, next, id, i);
    }
  }

  /** Component i is done: all its locals have been looked at. */
  lemma Lower(src: Source, lrs: seq<Interval>, cur: int, lrange: seq<int>, i: nat)
    requires 1 <= i && Scanned(src, lrs, cur, lrange, i, src.num)
    ensures Scanned(src, lrs, cur, lrange, i - 1, 0)
  {
    var h: nat, z: nat := i - 1, 0;
    forall id: nat | id < src.num ensures Covers(src, lrs, lrange, h, z, id) {
      assert Covers(src, lrs, lrange, i, src.num, id);
      assert forall k: nat :: src.Met(h, z, id, k) <==> src.Met(i, src.num, id, k);
    }
  }

  /** A finished scan has built the hulls. */
  lemma ScanDone(src: Source, lrs: seq<Interval>, cur: int, lrange: seq<int>)
    requires Scanned(src, lrs, cur, lrange, 0, 0)
    ensures src.AreHulls(lrs, cur + 1)
  {
    forall x | cur < x < src.num ensures src.IsHull(lrs[x]) {
      var id := Owner(lrange, x);
      assert Covers(src, lrs, lrange, 0, 0, id);
      assert lrs[x].n == Mk(src.fp, id);
      forall k: nat | src.Occurs(lrs[x].n, k) ensures lrs[x].beg <= k <= lrs[x].end {
        assert src.Met(0, 0, id, k);
      }
    }
    forall x, y | cur < x < y < src.num ensures lrs[x].n != lrs[y].n {
      var a, b := Owner(lrange, x), Owner(lrange, y);
      assert lrs[x].n == Mk(src.fp, a) && lrs[y].n == Mk(src.fp, b);
    }
    forall id: nat, k: nat | id < src.num && src.Occurs(Mk(src.fp, id), k)
      ensures exists i :: cur + 1 <= i < src.num && lrs[i].n == Mk(src.fp, id)
    {
      assert Covers(src, lrs, lrange, 0, 0, id) && src.Met(0, 0, id, k);
      assert lrs[lrange[id]].n == Mk(src.fp, id);
    }
  }

  class IntervalScan {
    const src: Source
    var lrs: seq<Interval>   // filled from the top down
    var cur: int             // next free index
    var lrange: seq<int>

    constructor (src: Source)
      ensures this.src == src
      ensures |lrs| == |lrange| == src.num && cur == src.num - 1
      ensures forall id: nat :: id < src.num ==> lrange[id] == -1
    {
      this.src := src;
      lrs := seq(src.num, _ => Interval(Special, 0, 0));
      cur := src.num - 1;
      lrange := seq(src.num, _ => -1);
    }

    /** Extend the interval of local id down to component pos, or start it there. */
    method Init(id: nat, pos: nat)
      requires Scanned(src, lrs, cur, lrange, pos, id)
      requires id < src.num && src.Occurs(Mk(src.fp, id), pos)
      modifies this`lrs, this`cur, this`lrange
      ensures Scanned(src, lrs, cur, lrange, pos, id + 1)
    {
      if lrange[id] == -1 {
        Room(src, lrs, cur, lrange, id);
        StartInterval(src, lrs, cur, lrange, pos, id);
        var tlr := cur;
        cur := cur - 1;
        lrange := lrange[id := tlr];
        lrs := lrs[tlr := Interval(Mk(src.fp, id), pos, pos)];
      } else {
        ExtendInterval(src, lrs, cur, lrange, pos, id);
        var tlr := lrange[id];
        lrs := lrs[tlr := lrs[tlr].(beg := pos)];
      }
    }

    /** One component: its locals of the class, in increasing order. */
    method ScanComponent(i: nat)
      requires 1 <= i <= src.scn < |src.sccVars| && Scanned(src, lrs, cur, lrange, i, 0)
      modifies this`lrs, this`cur, this`lrange
      ensures Scanned(src, lrs, cur, lrange, i, src.num)
    {
      for id := 0 to src.num
        invariant Scanned(src, lrs, cur, lrange, i, id)
      {
        if Mk(src.fp, id) in src.sccVars[i] {
          Init(id, i);
        } else {
          Skip(src, lrs, cur, lrange, i, id);
        }
      }
    }

    /** All components, from the last to the first. */
    method Scan()
      requires src.scn < |src.sccVars|
      requires |lrs| == |lrange| == src.num && cur == src.num - 1
      requires forall id: nat :: id < src.num ==> lrange[id] == -1
      modifies this`lrs, this`cur, this`lrange
      ensures -1 <= cur && src.AreHulls(lrs, cur + 1)
    {
      var i: nat := src.scn;
      while i >= 1
        invariant i <= src.scn && Scanned(src, lrs, cur, lrange, i, 0)
      {
        ScanComponent(i);
        Lower(src, lrs, cur, lrange, i);
        i := i - 1;
      }
      ScanDone(src, lrs, cur, lrange);
    }
  }
}
