/** Integer expression trees: their meaning, and their simplification. */
module Folding {
  import opened Bits

  // ----- Trees and their meaning -----

  /** int and unsigned, both of 32 bits. */
  datatype Type = I | U

  function Wrap(t: Type, x: int): (w: int)
    ensures InRange(t, w)
  {
    if t.I? then WrapInt(x) else x % WORD
  }

  predicate InRange(t: Type, x: int) {
    if t.I? then IsInt(x) else 0 <= x < WORD
  }

  datatype Operator = ADD | SUB | MUL | DIV | MOD | LSH | RSH | BAND | BOR | BXOR | EQ | NE | GT | GE | LE | LT
  {
    predicate Compares() {
      EQ? || NE? || GT? || GE? || LE? || LT?
    }

    predicate Shifts() {
      LSH? || RSH?
    }

    predicate Bitwise() {
      BAND? || BOR? || BXOR?
    }
  }

  /** Leaf is any expression with an effect; Load reads memory; Right evaluates two expressions for
      the value of the last, and either may be missing. */
  datatype Expr = Cnst(t: Type, v: int) | Leaf(id: nat, t: Type) | Load(t: Type, l: Expr)
    | Binary(op: Operator, t: Type, l: Expr, r: Expr) | Neg(l: Expr) | Com(t: Type, l: Expr) | Cvt(t: Type, l: Expr)
    | And(l: Expr, r: Expr) | Or(l: Expr, r: Expr) | Not(l: Expr) | Right(l: Expr, r: Expr) | Nothing

  /** The type of a tree's value. */
  function TypeOf(e: Expr): Type {
    match e
    case Cnst(t, _) => t
    case Leaf(_, t) => t
    case Load(t, _) => t
    case Binary(op, t, _, _) => if op.Compares() then I else t
    case Neg(_) => I
    case Com(t, _) => t
    case Cvt(t, _) => t
    case And(_, _) => I
    case Or(_, _) => I
    case Not(_) => I
    case Right(l, r) => if r.Nothing? then TypeOf(l) else TypeOf(r)
    case Nothing => I
  }

  /** Which effects have happened, in order. */
  type Trace = seq<nat>

  /** The values that effects and loads give depend on what has happened before. */
  datatype World = World(leaf: (nat, Trace) -> int, load: (int, Trace) -> int)

  datatype Result = Undefined | Value(v: int, h: Trace)

  /** All bits changed. */
  function Flip(t: Type, x: int): int {
    if t.I? then -1 - x else 0xffff_ffff - x
  }

  /** Division toward zero. */
  function Quotient(x: int, y: int): int
    requires y != 0
  {
    if (x < 0) == (y < 0) then Abs(x) / Abs(y) else -(Abs(x) / Abs(y))
  }

  function Abs(x: int): nat {
    if x < 0 then -x else x
  }

  function Truth(b: bool): int {
    if b then 1 else 0
  }

  /** An operation on words of type t. Division by zero, division that overflows, and shifts by the
      width or more are undefined. */
  function Apply(op: Operator, t: Type, x: int, y: int): Option
    requires InRange(t, x) && (if op.Shifts() then true else InRange(t, y)) && (op.Bitwise() ==> t.U?)
  {
    match op
    case ADD => Some(Wrap(t, x + y))
    case SUB => Some(Wrap(t, x - y))
    case MUL => Some(Wrap(t, Times(x, y)))
    case DIV => Division(t, x, y)
    case MOD => Remainder(t, x, y)
    case LSH => ShiftLeft(t, x, y)
    case RSH => ShiftRight(x, y)
    case BAND => Some(Combine(Bits.AND, x, y, 32))
    case BOR => Some(Combine(Bits.OR, x, y, 32))
    case BXOR => Some(Combine(Bits.XOR, x, y, 32))
    case EQ => Some(Truth(x == y))
    case NE => Some(Truth(x != y))
    case GT => Some(Truth(x > y))
    case GE => Some(Truth(x >= y))
    case LE => Some(Truth(x <= y))
    case LT => Some(Truth(x < y))
  }

  function Times(x: int, y: int): int {
    x * y
  }

  function Division(t: Type, x: int, y: int): Option {
    if y == 0 || !InRange(t, Quotient(x, y)) then None else Some(Quotient(x, y))
  }

  function Remainder(t: Type, x: int, y: int): Option {
    if y == 0 || !InRange(t, Quotient(x, y)) then None else Some(x - Times(Quotient(x, y), y))
  }

  function ShiftLeft(t: Type, x: int, n: int): Option {
    if 0 <= n < 32 then Some(Wrap(t, Times(x, Power2(n)))) else None
  }

  function ShiftRight(x: int, n: int): Option {
    if 0 <= n < 32 then Some(x / Power2(n)) else None
  }

  datatype Option = None | Some(value: int)

  /** Evaluate a tree. Comparisons read the words of their operands as values of type t. */
  function Eval(e: Expr, w: World, h: Trace): Result {
    match e
    case Cnst(t, v) => Value(Wrap(t, v), h)
    case Leaf(id, t) => Value(Wrap(t, w.leaf(id, h)), h + [id])
    case Load(t, l) =>
      var a := Eval(l, w, h);
      if a.Undefined? then Undefined else Value(Wrap(t, w.load(a.v, a.h)), a.h)
    case Binary(op, t, l, r) =>
      var a := Eval(l, w, h);
      if a.Undefined? then Undefined
      else
        var b := Eval(r, w, a.h);
        if b.Undefined? then Undefined else Computed(op, t, a.v, b.v, b.h)
    case Neg(l) => var a := Eval(l, w, h); if a.Undefined? then Undefined else Value(Wrap(I, -a.v), a.h)
    case Com(t, l) => var a := Eval(l, w, h); if a.Undefined? then Undefined else Value(Flip(t, a.v), a.h)
    case Cvt(t, l) => var a := Eval(l, w, h); if a.Undefined? then Undefined else Value(Wrap(t, a.v), a.h)
    case And(l, r) =>
      var a := Eval(l, w, h);
      if a.Undefined? then Undefined else if a.v == 0 then Value(0, a.h) else Decided(Eval(r, w, a.h))
    case Or(l, r) =>
      var a := Eval(l, w, h);
      if a.Undefined? then Undefined else if a.v != 0 then Value(1, a.h) else Decided(Eval(r, w, a.h))
    case Not(l) => var a := Eval(l, w, h); if a.Undefined? then Undefined else Value(Truth(a.v == 0), a.h)
    case Right(l, r) =>
      var a := Eval(l, w, h);
      if a.Undefined? || r.Nothing? then a else Eval(r, w, a.h)
    case Nothing => Value(0, h)
  }

  function Computed(op: Operator, t: Type, x: int, y: int, h: Trace): Result {
    if op.Bitwise() && t.I? then Undefined
    else
      var z := Apply(op, t, Wrap(t, x), if op.Shifts() then y else Wrap(t, y));
      if z.None? then Undefined else Value(z.value, h)
  }

  /** The value of a logical operand. */
  function Decided(r: Result): Result {
    if r.Undefined? then r else Value(Truth(r.v != 0), r.h)
  }

  /** What the front end builds: operands have the types that their operators expect. */
  predicate WellTyped(e: Expr) {
    match e
    case Cnst(t, v) => InRange(t, v)
    case Leaf(_, _) => true
    case Load(_, l) => WellTyped(l) && !l.Nothing?
    case Binary(op, t, l, r) => WellTyped(l) && WellTyped(r) && Fitting(op, t, l, r)
    case Neg(l) => WellTyped(l) && !l.Nothing? && TypeOf(l) == I
    case Com(t, l) => WellTyped(l) && !l.Nothing? && TypeOf(l) == t
    case Cvt(t, l) => WellTyped(l) && !l.Nothing?
    case And(l, r) => WellTyped(l) && WellTyped(r) && !l.Nothing? && !r.Nothing?
    case Or(l, r) => WellTyped(l) && WellTyped(r) && !l.Nothing? && !r.Nothing?
    case Not(l) => WellTyped(l) && !l.Nothing?
    case Right(l, r) => WellTyped(l) && WellTyped(r) && (!l.Nothing? || !r.Nothing?)
    case Nothing => true
  }

  predicate Fitting(op: Operator, t: Type, l: Expr, r: Expr) {
    && !l.Nothing? && !r.Nothing?
    && if op.Compares() then TypeOf(l) == TypeOf(r) && (t == TypeOf(l) || (t.I? && (op.EQ? || op.NE?)))
       else TypeOf(l) == t && (if op.Shifts() then TypeOf(r) == I else TypeOf(r) == t) && (op.Bitwise() ==> t.U?)
  }

  // ----- Effects only -----

  /** The tree without what has no effect. */
  function Root(e: Expr, needconst: bool): Expr {
    match e
    case Cnst(_, _) => if needconst then e else Nothing
    case Leaf(_, _) => e
    case Load(_, l) => Root(l, needconst)
    case Binary(_, _, l, r) => Both(Root(l, needconst), Root(r, needconst))
    case Neg(l) => Root(l, needconst)
    case Com(_, l) => Root(l, needconst)
    case Cvt(_, l) => Root(l, needconst)
    case And(l, r) => if Root(r, needconst).Nothing? then Root(l, needconst) else And(l, Root(r, needconst))
    case Or(l, r) => if Root(r, needconst).Nothing? then Root(l, needconst) else Or(l, Root(r, needconst))
    case Not(l) => Root(l, needconst)
    case Right(l, r) => if r.Nothing? then Root(l, needconst) else Both(Root(l, needconst), Root(r, needconst))
    case Nothing => Nothing
  }

  function Both(l: Expr, r: Expr): Expr {
    if l.Nothing? && r.Nothing? then Nothing else Right(l, r)
  }

  /** The same effects happen, in the same order. */
  ghost predicate SameEffects(e: Expr, f: Expr, w: World, h: Trace) {
    Eval(e, w, h).Value? ==> Eval(f, w, h).Value? && Eval(f, w, h).h == Eval(e, w, h).h
  }

  lemma {:induction false} RootKeepsEffects(e: Expr, needconst: bool, w: World, h: Trace)
    requires WellTyped(e)
    ensures SameEffects(e, Root(e, needconst), w, h)
    decreases e, 1
  {
    match e
    case Cnst(_, _) =>
    case Leaf(_, _) =>
    case Load(_, l) => RootKeepsEffects(l, needconst, w, h);
    case Binary(_, _, l, r) => BothKeepEffects(e, l, r, needconst, w, h);
    case Neg(l) => RootKeepsEffects(l, needconst, w, h);
    case Com(_, l) => RootKeepsEffects(l, needconst, w, h);
    case Cvt(_, l) => RootKeepsEffects(l, needconst, w, h);
    case And(_, _) => JunctionKeepsEffects(e, needconst, w, h);
    case Or(_, _) => JunctionKeepsEffects(e, needconst, w, h);
    case Not(l) => RootKeepsEffects(l, needconst, w, h);
    case Right(l, r) =>
      RootKeepsEffects(l, needconst, w, h);
      if !r.Nothing? {
        BothKeepEffects(e, l, r, needconst, w, h);
      }
    case Nothing =>
  }

  lemma JunctionKeepsEffects(e: Expr, needconst: bool, w: World, h: Trace)
    requires WellTyped(e) && (e.And? || e.Or?)
    ensures SameEffects(e, Root(e, needconst), w, h)
    decreases e, 0
  {
    RootKeepsEffects(e.l, needconst, w, h);
    if Eval(e.l, w, h).Value? {
      RootKeepsEffects(e.r, needconst, w, Eval(e.l, w, h).h);
    }
  }

  lemma BothKeepEffects(e: Expr, l: Expr, r: Expr, needconst: bool, w: World, h: Trace)
    requires WellTyped(l) && WellTyped(r) && l < e && r < e
    ensures Eval(l, w, h).Value? && Eval(r, w, Eval(l, w, h).h).Value? ==>
      var b := Eval(Both(Root(l, needconst), Root(r, needconst)), w, h);
      b.Value? && b.h == Eval(r, w, Eval(l, w, h).h).h
    decreases e, 0
  {
    RootKeepsEffects(l, needconst, w, h);
    var a := Eval(l, w, h);
    if a.Value? {
      RootKeepsEffects(r, needconst, w, a.h);
      if Eval(r, w, a.h).Value? {
        BothEval(Root(l, needconst), Root(r, needconst), w, h);
      }
    }
  }

  lemma {:induction false} BothEval(l: Expr, r: Expr, w: World, h: Trace)
    requires Eval(l, w, h).Value? && Eval(r, w, Eval(l, w, h).h).Value?
    ensures Eval(Both(l, r), w, h).Value? && Eval(Both(l, r), w, h).h == Eval(r, w, Eval(l, w, h).h).h
  {
  }

  // ----- And no more than effects -----

  /** A tree evaluated for its effects: leaves, one after the other, and conditions of effects. */
  predicate Bare(e: Expr, needconst: bool) {
    match e
    case Cnst(_, _) => needconst
    case Leaf(_, _) => true
    case And(_, r) => Bare(r, needconst) && !r.Nothing?
    case Or(_, r) => Bare(r, needconst) && !r.Nothing?
    case Right(l, r) => Bare(l, needconst) && Bare(r, needconst) && !(l.Nothing? && r.Nothing?)
    case Nothing => true
    case _ => false
  }

  /** There is nothing in the tree to keep. */
  predicate Effectless(e: Expr, needconst: bool) {
    match e
    case Cnst(_, _) => !needconst
    case Leaf(_, _) => false
    case Load(_, l) => Effectless(l, needconst)
    case Binary(_, _, l, r) => Effectless(l, needconst) && Effectless(r, needconst)
    case Neg(l) => Effectless(l, needconst)
    case Com(_, l) => Effectless(l, needconst)
    case Cvt(_, l) => Effectless(l, needconst)
    case And(l, r) => Effectless(l, needconst) && Effectless(r, needconst)
    case Or(l, r) => Effectless(l, needconst) && Effectless(r, needconst)
    case Not(l) => Effectless(l, needconst)
    case Right(l, r) => Effectless(l, needconst) && Effectless(r, needconst)
    case Nothing => true
  }

  /** Nothing but effects is left, and nothing at all exactly when there are none. */
  lemma {:induction false} RootIsBare(e: Expr, needconst: bool)
    ensures Bare(Root(e, needconst), needconst)
    ensures Root(e, needconst).Nothing? <==> Effectless(e, needconst)
  {
    match e
    case Cnst(_, _) =>
    case Leaf(_, _) =>
    case Load(_, l) => RootIsBare(l, needconst);
    case Binary(_, _, l, r) =>
      RootIsBare(l, needconst);
      RootIsBare(r, needconst);
    case Neg(l) => RootIsBare(l, needconst);
    case Com(_, l) => RootIsBare(l, needconst);
    case Cvt(_, l) => RootIsBare(l, needconst);
    case And(l, r) =>
      RootIsBare(l, needconst);
      RootIsBare(r, needconst);
    case Or(l, r) =>
      RootIsBare(l, needconst);
      RootIsBare(r, needconst);
    case Not(l) => RootIsBare(l, needconst);
    case Right(l, r) =>
      RootIsBare(l, needconst);
      RootIsBare(r, needconst);
    case Nothing =>
  }
}
