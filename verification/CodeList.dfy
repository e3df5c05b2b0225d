/** Lists of code with labels: what they do, and edits that do not change it. */
module CodeList {

  datatype Operator = EQ | NE | GT | GE | LE | LT

  predicate Compare(op: Operator, x: int, y: int) {
    match op
    case EQ => x == y
    case NE => x != y
    case GT => x > y
    case GE => x >= y
    case LE => x <= y
    case LT => x < y
  }

  /** Mark: a block, declaration or source point, without effect on control.
      Branch: a comparison; it evaluates its operands and branches if the comparison holds.
      Gen: other code; it may leave for one of its targets. Switch: it always does. */
  datatype Item = Mark | Label(l: nat) | Jump(l: nat) | Branch(id: nat, op: Operator, l: nat)
    | Gen(id: nat, targets: seq<nat>) | Switch(id: nat, targets: seq<nat>)
  {
    predicate Falls() {
      Mark? || Label?
    }

    predicate Silent() {
      Mark? || Label? || Jump?
    }
  }

  /** One visible execution: of a comparison, with its operands' values, or of other code, with
      the way it leaves. */
  datatype Event = Event(id: nat, left: int, right: int)

  /** A list, and for each label the one that stands for it. */
  datatype Program = Program(items: seq<Item>, rep: nat -> nat) {

    /** The position of a label, or the end of the list. */
    function Find(l: nat): (n: nat)
      ensures n <= |items|
    {
      FindIn(items, rep(l))
    }

    /** The next position after the silent item at a. */
    function SilentNext(a: nat): nat
      requires a < |items| && items[a].Silent()
    {
      if items[a].Jump? then Find(items[a].l) else a + 1
    }

    predicate Allowed(a: nat, e: Event)
      requires a < |items|
    {
      match items[a]
      case Branch(id, _, _) => e.id == id
      case Gen(id, targets) => e.id == id && 0 <= e.left <= |targets|
      case Switch(id, targets) => e.id == id && 0 <= e.left < |targets|
      case _ => false
    }

    function Next(a: nat, e: Event): nat
      requires a < |items| && Allowed(a, e)
    {
      match items[a]
      case Branch(_, op, l) => if Compare(op, e.left, e.right) then Find(l) else a + 1
      case Gen(_, targets) => if e.left == 0 then a + 1 else Find(targets[e.left - 1])
      case Switch(_, targets) => Find(targets[e.left])
    }

    /** Control goes silently from a to b in k steps. */
    ghost predicate Leads(a: nat, b: nat, k: nat)
      decreases k
    {
      if k == 0 then a == b else a < |items| && items[a].Silent() && Leads(SilentNext(a), b, k - 1)
    }

    /** From a, the events t can happen in n steps. */
    ghost predicate Behaves(a: nat, t: seq<Event>, n: nat)
      decreases n
    {
      if n == 0 then t == []
      else a < |items| && if items[a].Silent() then Behaves(SilentNext(a), t, n - 1)
        else t != [] && Allowed(a, t[0]) && Behaves(Next(a, t[0]), t[1..], n - 1)
    }
  }

  function FindIn(items: seq<Item>, l: nat): (n: nat)
    ensures n <= |items| && (n < |items| ==> items[n] == Label(l))
    ensures n == |items| <==> Label(l) !in items
    ensures forall i: nat :: i < n ==> items[i] != Label(l)
  {
    if items == [] then 0 else if items[0] == Label(l) then 0 else 1 + FindIn(items[1..], l)
  }

  lemma FoundAt(items: seq<Item>, l: nat, i: nat)
    requires i < |items| && items[i] == Label(l) && forall j: nat :: j < |items| && j != i ==> items[j] != Label(l)
    ensures FindIn(items, l) == i
  {
  }

  // ----- Simulation -----

  lemma {:induction false} LeadsThenBehaves(p: Program, a: nat, b: nat, k: nat, t: seq<Event>, n: nat)
    requires p.Leads(a, b, k) && p.Behaves(b, t, n)
    ensures p.Behaves(a, t, k + n)
    decreases k
  {
    if k > 0 {
      LeadsThenBehaves(p, p.SilentNext(a), b, k - 1, t, n);
    }
  }

  /** From b, program q catches up with what p does from a, and stays related. */
  ghost predicate Follows(p: Program, q: Program, r: (nat, nat) -> bool, a: nat, b: nat) {
    a < |p.items| ==>
      if p.items[a].Silent() then exists b': nat, k: nat :: q.Leads(b, b', k) && r(p.SilentNext(a), b')
      else exists b': nat, k: nat :: q.Leads(b, b', k) && Same(p, q, r, a, b')
  }

  /** Whatever the visible item at a does, the one at b can do, and the two stay related. */
  ghost predicate Same(p: Program, q: Program, r: (nat, nat) -> bool, a: nat, b: nat)
    requires a < |p.items|
  {
    && b < |q.items| && !p.items[a].Silent() && !q.items[b].Silent()
    && forall e: Event {:trigger p.Allowed(a, e)} ::
       p.Allowed(a, e) ==> q.Allowed(b, e) && r(p.Next(a, e), q.Next(b, e))
  }

  lemma {:induction false} Simulate(p: Program, q: Program, r: (nat, nat) -> bool, a: nat, b: nat, t: seq<Event>,
      n: nat) returns (m: nat)
    requires forall a: nat, b: nat {:trigger Follows(p, q, r, a, b)} :: r(a, b) ==> Follows(p, q, r, a, b)
    requires r(a, b) && p.Behaves(a, t, n)
    ensures q.Behaves(b, t, m)
    decreases n
  {
    m := 0;
    if n > 0 {
      assert Follows(p, q, r, a, b);
      if p.items[a].Silent() {
        var b': nat, k: nat :| q.Leads(b, b', k) && r(p.SilentNext(a), b');
        m := Simulate(p, q, r, p.SilentNext(a), b', t, n - 1);
        LeadsThenBehaves(q, b, b', k, t, m);
        m := k + m;
      } else {
        var b': nat, k: nat :| q.Leads(b, b', k) && Same(p, q, r, a, b');
        m := Simulate(p, q, r, p.Next(a, t[0]), q.Next(b', t[0]), t[1..], n - 1);
        VisibleStep(q, b, b', k, t, m);
        m := k + (m + 1);
      }
    }
  }

  lemma VisibleStep(q: Program, b: nat, b': nat, k: nat, t: seq<Event>, m: nat)
    requires q.Leads(b, b', k) && b' < |q.items| && !q.items[b'].Silent()
    requires t != [] && q.Allowed(b', t[0]) && q.Behaves(q.Next(b', t[0]), t[1..], m)
    ensures q.Behaves(b, t, k + (m + 1))
  {
    assert q.Behaves(b', t, m + 1);
    LeadsThenBehaves(q, b, b', k, t, m + 1);
  }

  ghost predicate Produces(p: Program, a: nat, t: seq<Event>) {
    exists n: nat :: p.Behaves(a, t, n)
  }

  /** The same events can happen in p from a and in q from b. */
  ghost predicate Equivalent(p: Program, a: nat, q: Program, b: nat) {
    forall t: seq<Event> {:trigger Produces(p, a, t)} {:trigger Produces(q, b, t)} ::
      Produces(p, a, t) <==> Produces(q, b, t)
  }

  /** Programs that follow each other from related positions are equivalent there. */
  lemma FollowersEquivalent(p: Program, q: Program, r: (nat, nat) -> bool, r': (nat, nat) -> bool, a: nat, b: nat)
    requires forall a: nat, b: nat {:trigger Follows(p, q, r, a, b)} :: r(a, b) ==> Follows(p, q, r, a, b)
    requires forall a: nat, b: nat {:trigger Follows(q, p, r', b, a)} :: r'(b, a) ==> Follows(q, p, r', b, a)
    requires r(a, b) && r'(b, a)
    ensures Equivalent(p, a, q, b)
  {
    forall t: seq<Event> ensures Produces(p, a, t) <==> Produces(q, b, t) {
      if Produces(p, a, t) {
        var n: nat :| p.Behaves(a, t, n);
        var m := Simulate(p, q, r, a, b, t, n);
      }
      if Produces(q, b, t) {
        var n: nat :| q.Behaves(b, t, n);
        var m := Simulate(q, p, r', b, a, t, n);
      }
    }
  }

  // ----- Deleting an item -----

  function Without(items: seq<Item>, d: nat): (s: seq<Item>)
    requires d < |items|
    ensures |s| == |items| - 1
    ensures forall i: nat {:trigger s[i]} :: i < |s| ==> s[i] == if i < d then items[i] else items[i + 1]
  {
    items[..d] + items[d + 1..]
  }

  /** Where a position is after the item at d is gone. */
  function Shift(d: nat, a: nat): nat {
    if a <= d then a else a - 1
  }

  lemma FindWithout(items: seq<Item>, d: nat, l: nat)
    requires d < |items| && items[d] != Label(l)
    ensures FindIn(Without(items, d), l) == Shift(d, FindIn(items, l))
  {
    var n := FindIn(items, l);
    var s := Without(items, d);
    forall i: nat | i < Shift(d, n) ensures s[i] != Label(l) {
      assert s[i] == items[if i < d then i else i + 1];
    }
    assert n < |items| ==> s[Shift(d, n)] == items[n];
    FindIs(s, l, Shift(d, n));
  }

  lemma FindIs(items: seq<Item>, l: nat, n: nat)
    requires n <= |items| && (n < |items| ==> items[n] == Label(l)) && forall i: nat :: i < n ==> items[i] != Label(l)
    ensures FindIn(items, l) == n
  {
  }

  /** Marks and labels are fallen through. */
  lemma {:induction false} FallThrough(p: Program, a: nat, b: nat)
    requires a <= b <= |p.items| && forall i: nat :: a <= i < b ==> p.items[i].Falls()
    ensures p.Leads(a, b, b - a)
    decreases b - a
  {
    if a < b {
      FallThrough(p, a + 1, b);
    }
  }

  /** r relates positions before and after the item at d has gone: each to where it has moved, and
      the targets of jumps; but not those behind lo up to d. */
  ghost predicate Relates(p: Program, q: Program, lo: nat, d: nat, r: (nat, nat) -> bool) {
    && lo <= d < |p.items| && q.items == Without(p.items, d)
    && (forall a: nat {:trigger Shift(d, a)} :: !(lo < a <= d) ==> r(a, Shift(d, a)))
    && (forall l: nat {:trigger p.Find(l)} {:trigger q.Find(l)} :: r(p.Find(l), q.Find(l)))
  }

  ghost predicate Flips(r: (nat, nat) -> bool, r': (nat, nat) -> bool) {
    forall a: nat, b: nat {:trigger r(a, b)} {:trigger r'(b, a)} :: r(a, b) <==> r'(b, a)
  }

  /** The item at a stays, and control does not fall from it into the gap. */
  ghost predicate Stays(p: Program, lo: nat, d: nat, a: nat)
    requires lo <= d < |p.items|
  {
    a != d && !(lo < a < d) && (a == lo ==> p.items[a].Jump? || p.items[a].Switch?)
  }

  /** An item that stays is followed in both directions. */
  lemma StaysForward(p: Program, q: Program, lo: nat, d: nat, r: (nat, nat) -> bool, a: nat)
    requires Relates(p, q, lo, d, r) && Stays(p, lo, d, a)
    ensures Follows(p, q, r, a, Shift(d, a))
  {
    var b := Shift(d, a);
    if a < |p.items| {
      assert !(lo < a + 1 <= d) ==> r(a + 1, Shift(d, a + 1));
      if p.items[a].Silent() {
        assert q.Leads(b, q.SilentNext(b), 1);
      } else {
        assert q.Leads(b, b, 0);
      }
    }
  }

  lemma StaysBackward(p: Program, q: Program, lo: nat, d: nat, r: (nat, nat) -> bool, r': (nat, nat) -> bool, a: nat)
    requires Relates(p, q, lo, d, r) && Flips(r, r') && Stays(p, lo, d, a)
    ensures Follows(q, p, r', Shift(d, a), a)
  {
    var b := Shift(d, a);
    if b < |q.items| {
      assert !(lo < a + 1 <= d) ==> r(a + 1, Shift(d, a + 1));
      if p.items[a].Silent() {
        assert p.Leads(a, p.SilentNext(a), 1);
      } else {
        assert p.Leads(a, a, 0);
      }
    }
  }

  lemma {:induction false} LeadsOn(p: Program, a: nat, b: nat, c: nat, k: nat, m: nat)
    requires p.Leads(a, b, k) && p.Leads(b, c, m)
    ensures p.Leads(a, c, k + m)
    decreases k
  {
    if k > 0 {
      LeadsOn(p, p.SilentNext(a), b, c, k - 1, m);
    }
  }

  /** What is followed from b is followed from wherever leads to b. */
  lemma FollowsFrom(p: Program, q: Program, r: (nat, nat) -> bool, a: nat, b: nat, b0: nat, k: nat)
    requires Follows(p, q, r, a, b) && q.Leads(b0, b, k)
    ensures Follows(p, q, r, a, b0)
  {
    if a < |p.items| {
      if p.items[a].Silent() {
        var b': nat, m: nat :| q.Leads(b, b', m) && r(p.SilentNext(a), b');
        LeadsOn(q, b0, b, b', k, m);
      } else {
        var b': nat, m: nat :| q.Leads(b, b', m) && Same(p, q, r, a, b');
        LeadsOn(q, b0, b, b', k, m);
      }
    }
  }

  // ----- A jump to the next label -----

  ghost predicate JumpsNext(p: Program, d: nat, e: nat) {
    && d < e < |p.items| && p.items[d].Jump? && p.Find(p.items[d].l) == e
    && forall i: nat :: d < i < e ==> p.items[i].Falls()
  }

  /** Without the jump, control falls through to its target. */
  predicate FallingTo(d: nat, e: nat, a: nat, b: nat) {
    b == Shift(d, a) || (a == e && d <= b < e)
  }

  function WithoutItem(p: Program, d: nat): Program
    requires d < |p.items|
  {
    Program(Without(p.items, d), p.rep)
  }

  lemma JumpRelates(p: Program, d: nat, e: nat, r: (nat, nat) -> bool)
    requires JumpsNext(p, d, e) && forall a: nat, b: nat :: r(a, b) <==> FallingTo(d, e, a, b)
    ensures Relates(p, WithoutItem(p, d), d, d, r)
  {
    forall l: nat ensures r(p.Find(l), WithoutItem(p, d).Find(l)) {
      FindWithout(p.items, d, p.rep(l));
    }
  }

  lemma JumpGoneForward(p: Program, d: nat, e: nat, r: (nat, nat) -> bool, a: nat, b: nat)
    requires JumpsNext(p, d, e) && forall a: nat, b: nat :: r(a, b) <==> FallingTo(d, e, a, b)
    requires FallingTo(d, e, a, b)
    ensures Follows(p, WithoutItem(p, d), r, a, b)
  {
    var q := WithoutItem(p, d);
    JumpRelates(p, d, e, r);
    if a == d {
      assert q.Leads(b, d, 0) && r(e, d);
    } else if a == e {
      FallsThere(p, q, d, e, r, b);
    } else {
      StaysForward(p, q, d, d, r, a);
    }
  }

  /** Without the jump, control falls from b to its target. */
  lemma FallsThere(p: Program, q: Program, d: nat, e: nat, r: (nat, nat) -> bool, b: nat)
    requires JumpsNext(p, d, e) && q == WithoutItem(p, d) && Relates(p, q, d, d, r) && d <= b < e
    ensures Follows(p, q, r, e, b)
  {
    StaysForward(p, q, d, d, r, e);
    StillFalls(p, d, e, b);
    FollowsFrom(p, q, r, e, Shift(d, e), b, e - 1 - b);
  }

  lemma StillFalls(p: Program, d: nat, e: nat, b: nat)
    requires JumpsNext(p, d, e) && d <= b < e
    ensures WithoutItem(p, d).Leads(b, e - 1, e - 1 - b)
  {
    var q := WithoutItem(p, d);
    forall i: nat | b <= i < e - 1 ensures q.items[i].Falls() {
      assert q.items[i] == p.items[i + 1];
    }
    FallThrough(q, b, e - 1);
  }

  lemma JumpGoneBackward(p: Program, d: nat, e: nat, r: (nat, nat) -> bool, r': (nat, nat) -> bool, a: nat, b: nat)
    requires JumpsNext(p, d, e) && (forall a: nat, b: nat :: r(a, b) <==> FallingTo(d, e, a, b)) && Flips(r, r')
    requires FallingTo(d, e, a, b)
    ensures Follows(WithoutItem(p, d), p, r', b, a)
  {
    var q := WithoutItem(p, d);
    JumpRelates(p, d, e, r);
    if b == e - 1 {
      StaysBackward(p, q, d, d, r, r', e);
      if a == d {
        assert p.Leads(e, e, 0) && p.Leads(d, e, 1);
        FollowsFrom(q, p, r', b, e, a, 1);
      }
    } else if d <= b < e - 1 {
      FallsOn(p, q, d, e, r', a, b);
    } else {
      StaysBackward(p, q, d, d, r, r', a);
    }
  }

  /** Without the jump, control falls from b towards its target, where it is already with the jump. */
  lemma FallsOn(p: Program, q: Program, d: nat, e: nat, r': (nat, nat) -> bool, a: nat, b: nat)
    requires JumpsNext(p, d, e) && q == WithoutItem(p, d) && d <= b < e - 1
    requires r'(b + 1, e) && ((a == e) || (a == d == b) || (a == b + 1 && r'(b + 1, b + 2)))
    ensures Follows(q, p, r', b, a)
  {
    assert q.items[b] == p.items[b + 1];
    if a == e {
      assert p.Leads(e, e, 0);
    } else if a == d {
      assert p.Leads(e, e, 0) && p.Leads(d, e, 1);
    } else {
      assert p.Leads(a + 1, a + 1, 0) && p.Leads(a, a + 1, 1);
    }
  }

  /** A jump to the next label can go. */
  lemma JumpGone(p: Program, d: nat, e: nat, a: nat)
    requires JumpsNext(p, d, e)
    ensures Equivalent(p, a, WithoutItem(p, d), Shift(d, a))
  {
    var r, r' := (a: nat, b: nat) => FallingTo(d, e, a, b), (b: nat, a: nat) => FallingTo(d, e, a, b);
    forall a: nat, b: nat | r(a, b)
      ensures Follows(p, WithoutItem(p, d), r, a, b) && Follows(WithoutItem(p, d), p, r', b, a) {
      JumpGoneForward(p, d, e, r, a, b);
      JumpGoneBackward(p, d, e, r, r', a, b);
    }
    FollowersEquivalent(p, WithoutItem(p, d), r, r', a, Shift(d, a));
  }

  // ----- A jump that is not reached -----

  ghost predicate Unreached(p: Program, lo: nat, d: nat) {
    && lo < d < |p.items| && (p.items[lo].Jump? || p.items[lo].Switch?) && p.items[d].Jump?
    && forall i: nat :: lo < i < d ==> p.items[i].Mark?
  }

  predicate Outside(lo: nat, d: nat, a: nat, b: nat) {
    b == Shift(d, a) && !(lo < a <= d)
  }

  lemma UnreachedGone(p: Program, lo: nat, d: nat, a: nat)
    requires Unreached(p, lo, d) && !(lo < a <= d)
    ensures Equivalent(p, a, WithoutItem(p, d), Shift(d, a))
  {
    var q := WithoutItem(p, d);
    var r, r' := (a: nat, b: nat) => Outside(lo, d, a, b), (b: nat, a: nat) => Outside(lo, d, a, b);
    forall l: nat ensures r(p.Find(l), q.Find(l)) {
      FindWithout(p.items, d, p.rep(l));
    }
    assert Relates(p, q, lo, d, r) && Flips(r, r');
    forall a: nat, b: nat | r(a, b) ensures Follows(p, q, r, a, b) && Follows(q, p, r', b, a) {
      assert Stays(p, lo, d, a);
      StaysForward(p, q, lo, d, r, a);
      StaysBackward(p, q, lo, d, r, r', a);
    }
    FollowersEquivalent(p, q, r, r', a, Shift(d, a));
  }

  // ----- A label that is equated with another -----

  /** The representatives after label x has been equated with y. */
  function Equate(rep: nat -> nat, x: nat, y: nat): nat -> nat {
    l => if rep(l) == x then rep(y) else rep(l)
  }

  /** The label at d represents itself, and is the only one of its name. */
  ghost predicate OwnLabel(p: Program, d: nat, x: nat) {
    && d < |p.items| && p.items[d] == Label(x) && p.rep(x) == x
    && forall i: nat :: i < |p.items| && i != d ==> p.items[i] != Label(x)
  }

  function WithoutLabel(p: Program, d: nat, x: nat, y: nat): Program
    requires d < |p.items|
  {
    Program(Without(p.items, d), Equate(p.rep, x, y))
  }

  lemma FindEquated(p: Program, d: nat, x: nat, y: nat, l: nat)
    requires OwnLabel(p, d, x) && p.rep(y) != x
    ensures p.rep(l) == x ==> p.Find(l) == d
    ensures WithoutLabel(p, d, x, y).Find(l) == Shift(d, if p.rep(l) == x then p.Find(y) else p.Find(l))
  {
    FindWithout(p.items, d, if p.rep(l) == x then p.rep(y) else p.rep(l));
    if p.rep(l) == x {
      FoundAt(p.items, x, d);
    }
  }

  /** Where control goes on from the label, the other label is reached silently. */
  ghost predicate Heading(p: Program, d: nat, t: nat, a: nat, b: nat) {
    b == Shift(d, a) || (b == Shift(d, t) && exists k: nat :: p.Leads(a, t, k))
  }

  lemma LabelGone(p: Program, d: nat, x: nat, y: nat, k: nat, a: nat)
    requires OwnLabel(p, d, x) && p.rep(y) != x && p.Leads(d, p.Find(y), k)
    ensures Equivalent(p, a, WithoutLabel(p, d, x, y), Shift(d, a))
  {
    var q, t := WithoutLabel(p, d, x, y), p.Find(y);
    var r, r' := (a: nat, b: nat) => Heading(p, d, t, a, b), (b: nat, a: nat) => Heading(p, d, t, a, b);
    forall l: nat ensures r(p.Find(l), q.Find(l)) {
      FindEquated(p, d, x, y, l);
    }
    forall a: nat, b: nat | r(a, b) ensures Follows(p, q, r, a, b) && Follows(q, p, r', b, a) {
      HeadingFollows(p, q, d, t, r, r', a, b);
    }
    FollowersEquivalent(p, q, r, r', a, Shift(d, a));
  }

  lemma HeadingFollows(p: Program, q: Program, d: nat, t: nat, r: (nat, nat) -> bool, r': (nat, nat) -> bool, a: nat,
      b: nat)
    requires Relates(p, q, d, d, r) && Flips(r, r') && p.items[d].Label? && t != d
    requires forall a: nat, b: nat :: r(a, b) <==> Heading(p, d, t, a, b)
    requires r(a, b)
    ensures Follows(p, q, r, a, b) && Follows(q, p, r', b, a)
  {
    if b == Shift(d, a) {
      if a == d {
        assert q.Leads(d, d, 0) && r(d + 1, d);
        StaysBackward(p, q, d, d, r, r', d + 1);
        assert p.Leads(d, d + 1, 1);
        FollowsFrom(q, p, r', b, d + 1, a, 1);
      } else {
        StaysForward(p, q, d, d, r, a);
        StaysBackward(p, q, d, d, r, r', a);
      }
    } else {
      var k: nat :| p.Leads(a, t, k);
      assert k > 0;
      assert p.Leads(p.SilentNext(a), t, k - 1) && q.Leads(b, b, 0);
      assert r(p.SilentNext(a), b);
      StaysBackward(p, q, d, d, r, r', t);
      FollowsFrom(q, p, r', b, t, a, k);
    }
  }

  /** Two labels in a row: the second stands for the first. */
  predicate Stepping(d: nat, a: nat, b: nat) {
    b == Shift(d, a) || (a == d && b + 1 == d)
  }

  lemma SecondLabelGone(p: Program, d: nat, x: nat, y: nat, a: nat)
    requires OwnLabel(p, d, x) && p.rep(y) != x && p.Find(y) + 1 == d
    ensures Equivalent(p, a, WithoutLabel(p, d, x, y), Shift(d, a))
  {
    var q := WithoutLabel(p, d, x, y);
    var r, r' := (a: nat, b: nat) => Stepping(d, a, b), (b: nat, a: nat) => Stepping(d, a, b);
    forall l: nat ensures r(p.Find(l), q.Find(l)) {
      FindEquated(p, d, x, y, l);
    }
    forall a: nat, b: nat | r(a, b) ensures Follows(p, q, r, a, b) && Follows(q, p, r', b, a) {
      SteppingFollows(p, q, d, r, r', a, b);
    }
    FollowersEquivalent(p, q, r, r', a, Shift(d, a));
  }

  lemma SteppingFollows(p: Program, q: Program, d: nat, r: (nat, nat) -> bool, r': (nat, nat) -> bool, a: nat, b: nat)
    requires Relates(p, q, d, d, r) && Flips(r, r') && p.items[d].Label? && 0 < d && p.items[d - 1].Label?
    requires forall a: nat, b: nat :: r(a, b) <==> Stepping(d, a, b)
    requires r(a, b)
    ensures Follows(p, q, r, a, b) && Follows(q, p, r', b, a)
  {
    if a == d && b == d - 1 {
      assert q.Leads(d - 1, d, 1) && r(d + 1, d) && p.Leads(d, d + 1, 1);
    } else if a == d {
      assert q.Leads(d, d, 0) && r(d + 1, d);
      StaysBackward(p, q, d, d, r, r', d + 1);
      assert p.Leads(d, d + 1, 1);
      FollowsFrom(q, p, r', b, d + 1, a, 1);
    } else {
      StaysForward(p, q, d, d, r, a);
      StaysBackward(p, q, d, d, r, r', a);
    }
  }

  // ----- Replacing labels by their representatives -----

  function Own(): nat -> nat {
    l => l
  }

  function ResolveAll(ls: seq<nat>, rep: nat -> nat): (s: seq<nat>)
    ensures |s| == |ls| && forall i: nat :: i < |ls| ==> s[i] == rep(ls[i])
  {
    seq(|ls|, i requires 0 <= i < |ls| => rep(ls[i]))
  }

  function Resolve(item: Item, rep: nat -> nat): Item {
    match item
    case Mark => Mark
    case Label(l) => Label(l)
    case Jump(l) => Jump(rep(l))
    case Branch(id, op, l) => Branch(id, op, rep(l))
    case Gen(id, targets) => Gen(id, ResolveAll(targets, rep))
    case Switch(id, targets) => Switch(id, ResolveAll(targets, rep))
  }

  ghost predicate IsResolved(p: Program, items: seq<Item>) {
    |items| == |p.items| && forall i: nat :: i < |items| ==> items[i] == Resolve(p.items[i], p.rep)
  }

  /** A list whose labels have been resolved behaves like the list with its representatives. */
  lemma ResolvedEquivalent(p: Program, items: seq<Item>, a: nat)
    requires IsResolved(p, items)
    ensures Equivalent(p, a, Program(items, Own()), a)
  {
    var q := Program(items, Own());
    var r := (a: nat, b: nat) => a == b;
    forall l: nat ensures q.Find(p.rep(l)) == p.Find(l) {
      SameLabels(p, items, p.rep(l));
    }
    forall a: nat, b: nat | r(a, b) ensures Follows(p, q, r, a, b) && Follows(q, p, r, b, a) {
      ResolvedFollows(p, q, r, a);
    }
    FollowersEquivalent(p, q, r, r, a, a);
  }

  lemma ResolvedFollows(p: Program, q: Program, r: (nat, nat) -> bool, a: nat)
    requires IsResolved(p, q.items) && q.rep == Own() && r == ((a: nat, b: nat) => a == b)
    requires forall l: nat :: q.Find(p.rep(l)) == p.Find(l)
    ensures Follows(p, q, r, a, a) && Follows(q, p, r, a, a)
  {
    if a < |p.items| {
      if p.items[a].Silent() {
        assert q.SilentNext(a) == p.SilentNext(a);
        assert q.Leads(a, q.SilentNext(a), 1) && p.Leads(a, p.SilentNext(a), 1);
      } else {
        assert q.Leads(a, a, 0) && p.Leads(a, a, 0);
      }
    }
  }

  lemma SameLabels(p: Program, items: seq<Item>, l: nat)
    requires IsResolved(p, items)
    ensures FindIn(items, l) == FindIn(p.items, l)
  {
    var n, m := FindIn(items, l), FindIn(p.items, l);
    assert m < |items| ==> items[m] == Label(l);
    assert n < |items| ==> p.items[n] == Label(l);
  }
}
