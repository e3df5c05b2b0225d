/** What the clean-up leaves: no jump that cannot be reached or need not be made. */
module Tidiness {
  import opened CodeList

  /** With nothing but marks between, a jump stands neither behind another transfer of control nor
      behind a label, unless it jumps to that label itself. */
  ghost predicate Tidy(s: seq<Item>, rep: nat -> nat) {
    forall i: nat, j: nat {:trigger TidyPair(s, rep, i, j)} :: i < j < |s| ==> TidyPair(s, rep, i, j)
  }

  ghost predicate TidyPair(s: seq<Item>, rep: nat -> nat, i: nat, j: nat)
    requires i < j < |s|
  {
    s[j].Jump? && MarksBetween(s, i, j) ==> !s[i].Jump? && !s[i].Switch? && (s[i].Label? ==> s[i].l == rep(s[j].l))
  }

  ghost predicate MarksBetween(s: seq<Item>, i: nat, j: nat)
    requires j <= |s|
  {
    forall k: nat :: i < k < j ==> s[k].Mark?
  }

  ghost predicate UsefulPair(s: seq<Item>, i: nat, j: nat)
    requires i < j < |s|
  {
    s[i].Jump? && MarksBetween(s, i, j) ==> s[j] != Label(s[i].l)
  }

  /** The list is tidy, and with nothing but marks between, no jump stands before the label it jumps
      to. */
  ghost predicate Clean(s: seq<Item>, rep: nat -> nat) {
    forall i: nat, j: nat {:trigger CleanPair(s, rep, i, j)} :: i < j < |s| ==> CleanPair(s, rep, i, j)
  }

  ghost predicate CleanPair(s: seq<Item>, rep: nat -> nat, i: nat, j: nat)
    requires i < j < |s|
  {
    TidyPair(s, rep, i, j) && UsefulPair(s, i, j)
  }

  lemma CleanFront(s: seq<Item>, rep: nat -> nat, n: nat)
    requires Clean(s, rep) && n <= |s|
    ensures Clean(s[..n], rep)
  {
    forall i: nat, j: nat | i < j < n ensures CleanPair(s[..n], rep, i, j) {
      assert CleanPair(s, rep, i, j);
      assert MarksBetween(s[..n], i, j) ==> MarksBetween(s, i, j) by {
        assert forall k: nat :: k < n ==> s[..n][k] == s[k];
      }
    }
  }

  /** All but the last item are clean, and so is the last one with those before it. */
  lemma CleanLast(s: seq<Item>, rep: nat -> nat, n: nat)
    requires n + 1 == |s| && Clean(s[..n], rep)
    requires forall i: nat :: i < n ==> CleanPair(s, rep, i, n)
    ensures Clean(s, rep)
  {
    forall i: nat, j: nat | i < j < |s| ensures CleanPair(s, rep, i, j) {
      if j < n {
        assert CleanPair(s[..n], rep, i, j);
        assert MarksBetween(s, i, j) ==> MarksBetween(s[..n], i, j) by {
          assert forall k: nat :: k < n ==> s[..n][k] == s[k];
        }
      }
    }
  }

  /** Anything but a jump or a label can be added. */
  lemma CleanAppend(s: seq<Item>, rep: nat -> nat, item: Item)
    requires Clean(s, rep) && !item.Jump? && !item.Label?
    ensures Clean(s + [item], rep)
  {
    assert (s + [item])[..|s|] == s;
    CleanLast(s + [item], rep, |s|);
  }

  /** The list ends with a jump, with marks back to position cp. */
  lemma CleanJump(s: seq<Item>, rep: nat -> nat, cp: nat)
    requires cp < |s| && Clean(s[..|s| - 1], rep) && s[|s| - 1].Jump?
    requires forall k: nat :: cp <= k < |s| - 1 ==> s[k].Mark?
    requires cp > 0 ==>
      var x := s[cp - 1];
      !x.Mark? && !x.Jump? && !x.Switch? && (x.Label? ==> x.l == rep(s[|s| - 1].l))
    ensures Clean(s, rep)
  {
    var n := |s| - 1;
    forall i: nat | i < n ensures CleanPair(s, rep, i, n) {
      if cp > 0 && i < cp - 1 {
        assert !s[cp - 1].Mark?;
      }
    }
    CleanLast(s, rep, n);
  }

  /** The list ends with a label, with labels and marks back to position cp, and no jump to it there. */
  lemma CleanLabel(s: seq<Item>, rep: nat -> nat, cp: nat)
    requires cp < |s| && Clean(s[..|s| - 1], rep) && s[|s| - 1].Label?
    requires forall k: nat :: cp <= k < |s| ==> s[k].Falls()
    requires cp > 0 ==> !s[cp - 1].Falls() && s[cp - 1] != Jump(s[|s| - 1].l)
    ensures Clean(s, rep)
  {
    var n := |s| - 1;
    forall i: nat | i < n ensures CleanPair(s, rep, i, n) {
      if cp > 0 && i < cp - 1 {
        assert !s[cp - 1].Mark?;
      }
    }
    CleanLast(s, rep, n);
  }

  /** Deleting a jump behind which there are only labels and marks: no other jump stands before it. */
  lemma CleanDelete(s: seq<Item>, rep: nat -> nat, d: nat)
    requires d < |s| && Clean(s, rep) && s[d].Jump? && forall j: nat :: d < j < |s| ==> s[j].Falls()
    ensures Clean(Without(s, d), rep)
  {
    var q := Without(s, d);
    assert q[..d] == s[..d];
    CleanFront(s, rep, d);
    forall i: nat, j: nat | i < j < |q| ensures CleanPair(q, rep, i, j) {
      if j < d {
        SamePair(s, q, rep, i, j, d);
      } else if i < d && MarksBetween(q, i, j) {
        MarksBefore(s, q, i, j, d);
        assert CleanPair(s, rep, i, d);
      }
    }
  }

  lemma SamePair(s: seq<Item>, q: seq<Item>, rep: nat -> nat, i: nat, j: nat, d: nat)
    requires Clean(s, rep) && i < j < d <= |s| && d <= |q| && q[..d] == s[..d]
    ensures CleanPair(q, rep, i, j)
  {
    assert forall k: nat :: k < d ==> q[k] == q[..d][k] && s[k] == s[..d][k];
    assert CleanPair(s, rep, i, j);
    assert MarksBetween(q, i, j) ==> MarksBetween(s, i, j);
  }

  lemma MarksBefore(s: seq<Item>, q: seq<Item>, i: nat, j: nat, d: nat)
    requires d < |s| && q == Without(s, d) && i < d <= j < |q| && MarksBetween(q, i, j)
    ensures MarksBetween(s, i, d)
  {
    forall k: nat | i < k < d ensures s[k].Mark? {
      assert q[k] == s[k];
    }
  }

  /** A label with only marks between it and the last item goes, and is equated. */
  lemma CleanRemove(s: seq<Item>, rep: nat -> nat, d: nat, y: nat)
    requires d + 1 < |s| && s[d].Label? && (forall i: nat :: d < i < |s| - 1 ==> s[i].Mark?)
    requires Clean(s[..|s| - 1], rep) && s[d] !in Without(s, d)
    ensures var q := Without(s, d); Clean(q[..|q| - 1], Equate(rep, s[d].l, y))
  {
    var x := s[d].l;
    var front, q := s[..|s| - 1], Without(s, d);
    assert q[..|q| - 1] == Without(front, d);
    var rest := Without(front, d);
    assert rest[..d] == front[..d];
    forall i: nat, j: nat | i < j < |rest|
      ensures CleanPair(rest, Equate(rep, x, y), i, j) {
      if j < d {
        SamePair(front, rest, rep, i, j, d);
        assert q[i] == rest[i];
      } else {
        assert rest[j] == s[j + 1];
      }
    }
  }

  /** A jump is still tidy when labels are replaced by those that stand for them. */
  lemma TidyResolved(s: seq<Item>, rep: nat -> nat, code: seq<Item>)
    requires Clean(s, rep) && IsResolved(Program(s, rep), code)
    ensures Tidy(code, Own())
  {
    var own := Own();
    forall i: nat, j: nat | i < j < |code| ensures TidyPair(code, own, i, j) {
      assert CleanPair(s, rep, i, j);
      assert forall k: nat :: k < |s| ==> (code[k].Mark? <==> s[k].Mark?);
      assert MarksBetween(code, i, j) ==> MarksBetween(s, i, j);
    }
  }

  // ----- What is left out -----

  /** s is the source with some items left out; f says where the others come from. */
  ghost predicate From(f: seq<nat>, s: seq<Item>, source: seq<Item>) {
    && |f| == |s|
    && (forall k: nat {:trigger f[k]} :: k < |f| ==> f[k] < |source| && s[k] == source[f[k]])
    && (forall k: nat, l: nat {:trigger f[k], f[l]} :: k < l < |f| ==> f[k] < f[l])
  }

  ghost predicate PartOf(s: seq<Item>, source: seq<Item>) {
    exists f: seq<nat> :: From(f, s, source)
  }

  lemma PartAppend(s: seq<Item>, source: seq<Item>, item: Item)
    requires PartOf(s, source)
    ensures PartOf(s + [item], source + [item])
  {
    var f: seq<nat> :| From(f, s, source);
    var g, q, t := f + [|source|], s + [item], source + [item];
    forall k: nat | k < |g| ensures g[k] < |t| && q[k] == t[g[k]] {
      assert k < |f| ==> f[k] < |source|;
    }
    assert From(g, q, t);
  }

  lemma PartDelete(s: seq<Item>, source: seq<Item>, d: nat)
    requires PartOf(s, source) && d < |s|
    ensures PartOf(Without(s, d), source)
  {
    var f: seq<nat> :| From(f, s, source);
    assert From(f[..d] + f[d + 1..], Without(s, d), source);
  }

  /** The code is a part of the source that is clean, with its labels resolved. */
  ghost predicate CleanPart(items: seq<Item>, rep: nat -> nat, source: seq<Item>, code: seq<Item>) {
    PartOf(items, source) && Clean(items, rep) && IsResolved(Program(items, rep), code)
  }

  /** No label stands right behind another. */
  ghost predicate Spaced(s: seq<Item>) {
    forall i: nat {:trigger s[i]} :: 0 < i < |s| && s[i].Label? ==> !s[i - 1].Label?
  }
}
