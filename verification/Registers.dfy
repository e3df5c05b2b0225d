/** Where locals live, and the pool of allocatable registers of one class. */
module Registers {

  /** Where a local lives. `InMemory` is a local that must be on the stack but has no slot yet. */
  datatype Storage = Undecided | InMemory | Register(r: nat) | Stack(slot: nat)

  /** The least member of a set, or -1. */
  function FirstBit(s: set<nat>): (r: int)
    ensures s == {} ==> r == -1
    ensures s != {} ==> r >= 0 && r in s && forall x :: x in s ==> r <= x
  {
    if s == {} then -1
    else
      HasLeast(s);
      var r: nat :| r in s && forall x :: x in s ==> r <= x;
      r
  }

  lemma HasLeast(s: set<nat>)
    requires s != {}
    ensures exists r: nat :: r in s && forall x :: x in s ==> r <= x
  {
    var y :| y in s;
    LeastFrom(s, y);
  }

  lemma {:induction false} LeastFrom(s: set<nat>, y: nat)
    requires y in s
    ensures exists r: nat :: r in s && forall x :: x in s ==> r <= x
  {
    if x :| x in s && x < y {
      LeastFrom(s, x);
    }
  }

  class RegPool {
    const all: set<nat>         // every register of the class
    const tmps: set<nat>        // caller-saved
    const vars: set<nat>        // callee-saved
    const leaf: bool            // the function makes no calls
    var free: set<nat>
    var mask: set<nat>          // registers withdrawn until the mask is reset

    constructor (tmps: set<nat>, vars: set<nat>, leaf: bool)
      ensures this.tmps == tmps && this.vars == vars && this.leaf == leaf
      ensures all == free == tmps + vars && mask == {}
    {
      this.tmps, this.vars, this.leaf := tmps, vars, leaf;
      all := tmps + vars;
      free := tmps + vars;
      mask := {};
    }

    /** Take the lowest free register that is caller-saved in a leaf function, callee-saved in
        another, or else the lowest free one, or fail with -1. */
    method Get() returns (r: int)
      modifies this`free
      ensures old(free) == {} ==> r == -1 && free == {}
      ensures old(free) != {} ==> r >= 0 && r in old(free) && free == old(free) - {r}
      ensures leaf && old(free) * tmps != {} ==> r in tmps && forall x :: x in old(free) && x in tmps ==> r <= x
      ensures !leaf && old(free) * vars != {} ==> r in vars && forall x :: x in old(free) && x in vars ==> r <= x
      ensures old(free) * (if leaf then tmps else vars) == {} ==> forall x :: x in old(free) ==> r <= x
    {
      var first := if leaf then tmps else vars;
      var wrk := free * first;
      assert forall x :: x in free && x in first ==> x in wrk;
      r := FirstBit(wrk);
      if r == -1 {
        r := FirstBit(free);
      }
      if r == -1 {
        return;
      }
      free := free - {r};
    }

    method Put(r: nat)
      modifies this`free
      ensures free == old(free) + {r}
    {
      free := free + {r};
    }

    /** Withdraw a register. */
    method Use(r: nat)
      modifies this`free
      ensures free == old(free) - {r}
    {
      free := free - {r};
    }

    function Available(): nat
      reads this
    {
      |free|
    }

    /** Withdraw a register for good, as far as Mask is concerned. */
    method SetMask(r: nat)
      modifies this`free, this`mask
      ensures free == old(free) - {r} && mask == old(mask) + {r}
    {
      free := free - {r};
      mask := mask + {r};
    }

    method ResetMask()
      modifies this`mask
      ensures mask == {}
    {
      mask := {};
    }

    /** Free every register that is not masked. */
    method Mask()
      modifies this`free
      ensures free == all - mask
    {
      free := all - mask;
    }
  }
}
