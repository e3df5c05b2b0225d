/** The list of active intervals: a fixed block of elements, linked into a ring of used and a ring
    of free ones. An element is named by its index in the block, and NULL is -1. */
module Ring {

  const NULL := -1

  function Succ(s: seq<nat>, k: nat): (x: nat)
    requires k < |s|
  {
    if k + 1 < |s| then s[k + 1] else s[0]
  }

  function Pred(s: seq<nat>, k: nat): (x: nat)
    requires k < |s|
  {
    if 0 < k then s[k - 1] else s[|s| - 1]
  }

  ghost predicate Distinct(s: seq<nat>) {
    forall i, j :: 0 <= i < j < |s| ==> s[i] != s[j]
  }

  /** Following the links from s[0] visits the elements of s, forwards and backwards. */
  ghost predicate Linked(next: seq<nat>, prev: seq<nat>, s: seq<nat>) {
    && |next| == |prev|
    && Distinct(s)
    && (forall k: nat {:trigger LinkedAt(next, prev, s, k)} :: k < |s| ==> LinkedAt(next, prev, s, k))
  }

  /** The links of s[k] lead to its neighbours. */
  ghost predicate LinkedAt(next: seq<nat>, prev: seq<nat>, s: seq<nat>, k: nat)
    requires k < |s| && |next| == |prev|
  {
    s[k] < |next| && next[s[k]] == Succ(s, k) && prev[s[k]] == Pred(s, k)
  }

  function Inserted(s: seq<nat>, k: nat, e: nat): (t: seq<nat>)
    requires k <= |s|
  {
    s[..k] + [e] + s[k..]
  }

  function Removed(s: seq<nat>, k: nat): (t: seq<nat>)
    requires k < |s|
  {
    s[..k] + s[k + 1..]
  }

  lemma InsertedMembers(s: seq<nat>, k: nat, e: nat)
    requires k <= |s|
    ensures forall x :: x in Inserted(s, k, e) <==> x == e || x in s
  {
    assert s == s[..k] + s[k..];
  }

  lemma RemovedMembers(s: seq<nat>, k: nat)
    requires k < |s| && Distinct(s)
    ensures forall x :: x in Removed(s, k) <==> x != s[k] && x in s
  {
    assert s == s[..k] + [s[k]] + s[k + 1..];
    assert s[k] !in s[..k] && s[k] !in s[k + 1..];
  }

  /** Links of elements outside the ring do not matter. */
  lemma LinkedFrame(next: seq<nat>, prev: seq<nat>, next': seq<nat>, prev': seq<nat>, s: seq<nat>)
    requires Linked(next, prev, s) && |next'| == |prev'| == |next|
    requires forall x :: x in s && x < |next| ==> next'[x] == next[x] && prev'[x] == prev[x]
    ensures Linked(next', prev', s)
  {
    forall k: nat | k < |s| ensures LinkedAt(next', prev', s, k) {
      assert LinkedAt(next, prev, s, k);
    }
  }

  /** Linking e behind s[k]. */
  lemma LinkAfter(next: seq<nat>, prev: seq<nat>, s: seq<nat>, k: nat, e: nat)
    requires Linked(next, prev, s) && k < |s| && e < |next| && e !in s
    requires LinkedAt(next, prev, s, k)
    ensures var u, w := s[k], next[s[k]];
      w in s && w < |next| && Linked(next[e := w][u := e], prev[w := e][e := u], Inserted(s, k + 1, e))
  {
    var u, w := s[k], next[s[k]];
    var k': nat := if k + 1 < |s| then k + 1 else 0;
    assert LinkedAt(next, prev, s, k') && s[k'] == w;
    var next', prev', t := next[e := w][u := e], prev[w := e][e := u], Inserted(s, k + 1, e);
    forall i: nat | i < |t| ensures LinkedAt(next', prev', t, i) {
      if i <= k {
        assert LinkedAt(next, prev, s, i) && t[i] == s[i];
      } else if i > k + 1 {
        assert LinkedAt(next, prev, s, i - 1) && t[i] == s[i - 1];
      }
    }
  }

  /** Linking e before s[k]; before s[0] makes it the new head. */
  lemma LinkBefore(next: seq<nat>, prev: seq<nat>, s: seq<nat>, k: nat, e: nat)
    requires Linked(next, prev, s) && k < |s| && e < |next| && e !in s
    requires LinkedAt(next, prev, s, k)
    ensures var u, w := s[k], prev[s[k]];
      w in s && w < |next| && Linked(next[w := e][e := u], prev[e := w][u := e], Inserted(s, k, e))
  {
    var u, w := s[k], prev[s[k]];
    var k': nat := if 0 < k then k - 1 else |s| - 1;
    assert LinkedAt(next, prev, s, k') && s[k'] == w;
    var next', prev', t := next[w := e][e := u], prev[e := w][u := e], Inserted(s, k, e);
    forall i: nat | i < |t| ensures LinkedAt(next', prev', t, i) {
      if i < k {
        assert LinkedAt(next, prev, s, i) && t[i] == s[i];
      } else if i > k {
        assert LinkedAt(next, prev, s, i - 1) && t[i] == s[i - 1];
      }
    }
  }

  /** Unlinking s[k]. */
  lemma Unlink(next: seq<nat>, prev: seq<nat>, s: seq<nat>, k: nat)
    requires Linked(next, prev, s) && k < |s|
    requires LinkedAt(next, prev, s, k)
    ensures var p, n := prev[s[k]], next[s[k]];
      p in s && n in s && p < |next| && n < |next| && Linked(next[p := n], prev[n := p], Removed(s, k))
  {
    var p, n := prev[s[k]], next[s[k]];
    var kp: nat, kn: nat := if 0 < k then k - 1 else |s| - 1, if k + 1 < |s| then k + 1 else 0;
    assert LinkedAt(next, prev, s, kp) && s[kp] == p && LinkedAt(next, prev, s, kn) && s[kn] == n;
    var next', prev', t := next[p := n], prev[n := p], Removed(s, k);
    forall i: nat | i < |t| ensures LinkedAt(next', prev', t, i) {
      if i < k {
        assert LinkedAt(next, prev, s, i) && t[i] == s[i];
      } else {
        assert LinkedAt(next, prev, s, i + 1) && t[i] == s[i + 1];
      }
    }
  }

  /** The items of the listed elements. */
  function Pick(item: seq<nat>, s: seq<nat>): (t: seq<nat>)
    requires forall x :: x in s ==> x < |item|
  {
    seq(|s|, k requires 0 <= k < |s| => assert s[k] in s; item[s[k]])
  }

  lemma PickInserted(item: seq<nat>, s: seq<nat>, k: nat, e: nat, c: nat)
    requires k <= |s| && e < |item| && e !in s && forall x :: x in s ==> x < |item|
    ensures forall x :: x in Inserted(s, k, e) ==> x < |item|
    ensures Pick(item[e := c], Inserted(s, k, e)) == Inserted(Pick(item, s), k, c)
  {
    InsertedMembers(s, k, e);
    var t := Inserted(s, k, e);
    assert forall i :: k < i < |t| ==> t[i] == s[i - 1] && t[i] in s;
    assert forall i :: 0 <= i < k ==> t[i] == s[i] && t[i] in s;
  }

  lemma PickRemoved(item: seq<nat>, s: seq<nat>, k: nat)
    requires k < |s| && Distinct(s) && forall x :: x in s ==> x < |item|
    ensures forall x :: x in Removed(s, k) ==> x < |item|
    ensures Pick(item, Removed(s, k)) == Removed(Pick(item, s), k)
  {
    RemovedMembers(s, k);
  }

  class List {
    const sz: nat
    var next: seq<nat>
    var prev: seq<nat>
    var item: seq<nat>          // the interval each element holds
    var used: int
    var free: int
    var nu: nat
    var nf: nat
    ghost var Used: seq<nat>    // used elements, first to last
    ghost var Free: seq<nat>

    ghost predicate Valid()
      reads this
    {
      && |next| == |prev| == |item| == sz
      && Linked(next, prev, Used) && Linked(next, prev, Free)
      && (forall x :: x in Used ==> x !in Free && x < sz)
      && (forall x :: x in Free ==> x < sz)
      && used == (if Used == [] then NULL else Used[0])
      && free == (if Free == [] then NULL else Free[0])
      && nu == |Used| && nf == |Free| && nu + nf == sz
    }

    /** The intervals held, first to last. */
    ghost function Items(): seq<nat>
      requires Valid()
      reads this
    {
      Pick(item, Used)
    }

    constructor (l: nat)
      requires 2 <= l
      ensures Valid() && sz == l && Used == []
    {
      sz := l;
      next := seq(l, i requires 0 <= i < l => if i + 1 < l then i + 1 else 0);
      prev := seq(l, i requires 0 <= i < l => if 0 < i then i - 1 else l - 1);
      item := seq(l, _ => 0);
      used, free := NULL, 0;
      nu, nf := 0, l;
      Used, Free := [], seq(l, i => i);
    }

    predicate IsFull()
      reads this
    {
      nf == 0
    }

    /** Take the first element off the free ring. */
    method GetFree() returns (le: nat)
      requires Valid() && 0 < nf
      modifies this`next, this`prev, this`free, this`Free
      ensures le == old(free) && Free == old(Free)[1..] && le !in Free && le !in Used && le < sz
      ensures forall x :: x in Free ==> x in old(Free)
      ensures |next| == |prev| == sz && Linked(next, prev, Used) && Linked(next, prev, Free)
      ensures free == (if Free == [] then NULL else Free[0])
    {
      le := free;
      assert LinkedAt(next, prev, Free, 0);
      Unlink(next, prev, Free, 0);
      ghost var next0, prev0 := next, prev;
      var p, n := prev[le], next[le];
      next := next[p := n];
      prev := prev[n := p];
      LinkedFrame(next0, prev0, next, prev, Used);
      free := if next[le] == le then NULL else next[le];
      Free := Removed(Free, 0);
    }

    /** Add an element behind e, or at the end when e is NULL, holding c. */
    method InsertFwd(e: int, c: nat, ghost k: nat)
      requires Valid() && 0 < nf
      requires if Used == [] then k == 0 else k < |Used| && (e == Used[k] || (e == NULL && k + 1 == |Used|))
      modifies this
      ensures Valid() && nf == old(nf) - 1
      ensures Items() == if old(Used) == [] then [c] else Inserted(old(Items()), k + 1, c)
    {
      var le := GetFree();
      ghost var at: nat := if Used == [] then 0 else k + 1;
      PickInserted(item, Used, at, le, c);
      InsertedMembers(Used, at, le);
      if used != NULL {
        assert LinkedAt(next, prev, Used, 0);
        var u: nat := if e != NULL then e else prev[used];
        LinkFwd(u, le, k);
      } else {
        LinkFirst(le);
      }
      nf := nf - 1;
      nu := nu + 1;
      item := item[le := c];
    }

    /** The four pointer updates that put le behind u. */
    method LinkFwd(u: nat, le: nat, ghost k: nat)
      requires |next| == |prev| == |item| == sz && Linked(next, prev, Used) && Linked(next, prev, Free)
      requires (forall x :: x in Used ==> x !in Free && x < sz) && le < sz && le !in Used && le !in Free
      requires k < |Used| && u == Used[k]
      modifies this`next, this`prev, this`Used
      ensures Used == Inserted(old(Used), k + 1, le)
      ensures |next| == |prev| == sz && Linked(next, prev, Used) && Linked(next, prev, Free)
    {
      assert LinkedAt(next, prev, Used, k);
      LinkAfter(next, prev, Used, k, le);
      ghost var next0, prev0 := next, prev;
      var w := next[u];
      prev := prev[w := le];
      next := next[le := w];
      prev := prev[le := u];
      next := next[u := le];
      LinkedFrame(next0, prev0, next, prev, Free);
      Used := Inserted(Used, k + 1, le);
    }

    /** le becomes the only used element. */
    method LinkFirst(le: nat)
      requires |next| == |prev| == |item| == sz && Linked(next, prev, Free)
      requires Used == [] && le < sz && le !in Free
      modifies this`next, this`prev, this`used, this`Used
      ensures Used == [le] && used == le
      ensures |next| == |prev| == sz && Linked(next, prev, Used) && Linked(next, prev, Free)
    {
      ghost var next0, prev0 := next, prev;
      prev := prev[le := le];
      next := next[le := le];
      used := le;
      LinkedFrame(next0, prev0, next, prev, Free);
      Used := [le];
    }

    /** Add an element before e, or at the head when e is NULL, holding c. */
    method InsertBwd(e: int, c: nat, ghost k: nat)
      requires Valid() && 0 < nf
      requires if Used == [] then k == 0 else k < |Used| && (e == Used[k] || (e == NULL && k == 0))
      modifies this
      ensures Valid() && nf == old(nf) - 1
      ensures Items() == Inserted(old(Items()), k, c)
    {
      var le := GetFree();
      PickInserted(item, Used, k, le, c);
      InsertedMembers(Used, k, le);
      if used != NULL {
        var u: nat := if e != NULL then e else used;
        LinkBwd(u, le, k);
        if u == used {
          used := le;
        }
      } else {
        LinkFirst(le);
      }
      nf := nf - 1;
      nu := nu + 1;
      item := item[le := c];
    }

    /** The four pointer updates that put le before u. */
    method LinkBwd(u: nat, le: nat, ghost k: nat)
      requires |next| == |prev| == |item| == sz && Linked(next, prev, Used) && Linked(next, prev, Free)
      requires (forall x :: x in Used ==> x !in Free && x < sz) && le < sz && le !in Used && le !in Free
      requires k < |Used| && u == Used[k]
      modifies this`next, this`prev, this`Used
      ensures Used == Inserted(old(Used), k, le)
      ensures |next| == |prev| == sz && Linked(next, prev, Used) && Linked(next, prev, Free)
    {
      assert LinkedAt(next, prev, Used, k);
      LinkBefore(next, prev, Used, k, le);
      ghost var next0, prev0 := next, prev;
      var w := prev[u];
      next := next[w := le];
      prev := prev[le := w];
      next := next[le := u];
      prev := prev[u := le];
      LinkedFrame(next0, prev0, next, prev, Free);
      Used := Inserted(Used, k, le);
    }

    /** Detach e and return it to the free ring. */
    method Remove(e: nat, ghost k: nat)
      requires Valid() && k < |Used| && e == Used[k]
      modifies this`next, this`prev, this`used, this`free, this`nu, this`nf, this`Used, this`Free
      ensures Valid() && nf == old(nf) + 1 && Used == Removed(old(Used), k)
      ensures Items() == Removed(old(Items()), k)
    {
      assert e in Used;
      PickRemoved(item, Used, k);
      RemovedMembers(Used, k);
      UnlinkUsed(e, k);
      ghost var rest := Free;
      ReturnFree(e);
      if rest != [] {
        InsertedMembers(rest, 1, e);
      }
      nf := nf + 1;
      nu := nu - 1;
    }

    method UnlinkUsed(e: nat, ghost k: nat)
      requires Valid() && k < |Used| && e == Used[k]
      modifies this`next, this`prev, this`used, this`Used
      ensures Used == Removed(old(Used), k) && e !in Used && used == (if Used == [] then NULL else Used[0])
      ensures |next| == |prev| == sz && Linked(next, prev, Used) && Linked(next, prev, Free)
    {
      assert LinkedAt(next, prev, Used, k);
      Unlink(next, prev, Used, k);
      ghost var next0, prev0 := next, prev;
      var p, n := prev[e], next[e];
      next := next[p := n];
      prev := prev[n := p];
      if e == next[e] {
        used := NULL;
      } else if e == used {
        used := next[e];
      }
      LinkedFrame(next0, prev0, next, prev, Free);
      Used := Removed(Used, k);
    }

    /** Put e behind the head of the free ring. */
    method ReturnFree(e: nat)
      requires |next| == |prev| == |item| == sz && Linked(next, prev, Used) && Linked(next, prev, Free)
      requires (forall x :: x in Used ==> x !in Free) && (forall x :: x in Free ==> x < sz) && e < sz && e !in Used
        && e !in Free
      requires free == (if Free == [] then NULL else Free[0])
      modifies this`next, this`prev, this`free, this`Free
      ensures Free == (if old(Free) == [] then [e] else Inserted(old(Free), 1, e)) && free == Free[0]
      ensures |next| == |prev| == sz && Linked(next, prev, Used) && Linked(next, prev, Free)
    {
      ghost var next0, prev0 := next, prev;
      var u := free;
      if u != NULL {
        assert LinkedAt(next, prev, Free, 0);
        LinkAfter(next, prev, Free, 0, e);
        var w := next[u];
        prev := prev[w := e];
        next := next[e := w];
        prev := prev[e := u];
        next := next[u := e];
        Free := Inserted(Free, 1, e);
      } else {
        prev := prev[e := e];
        next := next[e := e];
        Free := [e];
      }
      LinkedFrame(next0, prev0, next, prev, Used);
      if free == NULL {
        free := e;
      }
    }
  }
}
