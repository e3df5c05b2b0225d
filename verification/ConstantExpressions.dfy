/** Constant expressions: which trees of constants become constants. */
module ConstantExpressions {
  import opened Bits
  import opened Folding
  import opened Simplifier
  import opened FoldingMeaning

  /** A tree of constants, typed as the front end types it: conversions change the type, and what is
      tested is an int. */
  predicate Constant(e: Expr) {
    match e
    case Cnst(_, _) => true
    case Binary(op, t, l, r) => Constant(l) && Constant(r) && (op.Compares() ==> TypeOf(l) == t)
    case Neg(l) => Constant(l)
    case Com(_, l) => Constant(l)
    case Cvt(t, l) => Constant(l) && TypeOf(l) != t
    case And(l, r) => Constant(l) && Constant(r) && TypeOf(l) == I
    case Or(l, r) => Constant(l) && Constant(r) && TypeOf(l) == I
    case Not(l) => Constant(l) && TypeOf(l) == I
    case _ => false
  }

  function NoWorld(): World {
    World((_, _) => 0, (_, _) => 0)
  }

  /** The value of a tree of constants. */
  function ValueOf(e: Expr): Result {
    Eval(e, NoWorld(), [])
  }

  /** The world has no part in it. */
  lemma {:induction false} ConstantValue(e: Expr, w: World, h: Trace)
    requires Constant(e)
    ensures Eval(e, w, h) == if ValueOf(e).Undefined? then Undefined else Value(ValueOf(e).v, h)
    ensures ValueOf(e).Value? ==> ValueOf(e).h == []
    decreases e
  {
    match e
    case Cnst(_, _) =>
    case Binary(_, _, l, r) =>
      ConstantValue(l, w, h);
      ConstantValue(r, w, h);
      ConstantValue(l, NoWorld(), []);
      ConstantValue(r, NoWorld(), []);
    case Neg(l) => ConstantValue(l, w, h);
    case Com(_, l) => ConstantValue(l, w, h);
    case Cvt(_, l) => ConstantValue(l, w, h);
    case And(l, r) =>
      ConstantValue(l, w, h);
      ConstantValue(r, w, h);
    case Or(l, r) =>
      ConstantValue(l, w, h);
      ConstantValue(r, w, h);
    case Not(l) => ConstantValue(l, w, h);
  }

  // ----- The exceptions -----

  /** The operation is rewritten so as to keep the effects of an operand, before constants are folded:
      a remainder by 1, and an unsigned comparison that 0 decides. */
  predicate KeptForEffects(op: Operator, t: Type, x: int, y: int) {
    || (op.MOD? && t.I? && y == 1)
    || (t.U? && (op.GE? || op.LT?) && y == 0)
    || (t.U? && (op.LE? || op.GT?) && x == 0)
  }

  /** No operation that counts for the value is one of these. */
  predicate Foldable(e: Expr) {
    match e
    case Cnst(_, _) => true
    case Binary(op, t, l, r) =>
      && Foldable(l) && Foldable(r)
      && ValueOf(l).Value? && ValueOf(r).Value? && !KeptForEffects(op, t, ValueOf(l).v, ValueOf(r).v)
    case Neg(l) => Foldable(l)
    case Com(_, l) => Foldable(l)
    case Cvt(_, l) => Foldable(l)
    case And(l, r) => Foldable(l) && ValueOf(l).Value? && (ValueOf(l).v != 0 ==> Foldable(r))
    case Or(l, r) => Foldable(l) && ValueOf(l).Value? && (ValueOf(l).v == 0 ==> Foldable(r))
    case Not(l) => Foldable(l)
    case _ => false
  }

  // ----- Operations on constants -----

  /** An operation on constants that has a value. */
  ghost predicate Defined(op: Operator, t: Type, l: Expr, r: Expr) {
    && l.Cnst? && r.Cnst? && InRange(l.t, l.v) && InRange(r.t, r.v)
    && Fitting(op, t, l, r) && (op.Compares() ==> l.t == t)
    && Apply(op, t, l.v, r.v).Some?
  }

  lemma SumFolds(op: Operator, t: Type, l: Expr, r: Expr)
    requires Defined(op, t, l, r) && (op.ADD? || op.SUB?)
    ensures Sum(op, t, l, r, MayFold(op, l, r, true)).Cnst?
  {
  }

  lemma ShiftFolds(op: Operator, t: Type, l: Expr, r: Expr)
    requires Defined(op, t, l, r) && op.Shifts()
    ensures Shift(op, t, l, r, MayFold(op, l, r, true)).Cnst?
  {
    assert 0 <= r.v < 32;
  }

  lemma DivisionFolds(op: Operator, t: Type, l: Expr, r: Expr)
    requires Defined(op, t, l, r) && (op.DIV? || op.MOD?)
    ensures Divide(op, t, l, r, MayFold(op, l, r, true), true).Cnst? <==> !(op.MOD? && t.I? && r.v == 1)
  {
    assert r.v != 0;
    if t.U? && r.v > 1 && Log2(r.v) != 0 {
      PowerFolds(l, r);
    } else if t.I? {
      assert MayFold(op, l, r, true);
    }
  }

  lemma PowerFolds(l: Expr, r: Expr)
    requires IsConst(l, U) && IsConst(r, U) && InRange(U, l.v) && InRange(U, r.v) && r.v > 1 && Log2(r.v) != 0
    ensures Shift(RSH, U, l, Cnst(I, Log2(r.v)), true).Cnst?
    ensures Simplifier.Bitwise(BAND, l, Cnst(U, r.v - 1), true).Cnst?
  {
    Power32();
    Log2IsLog(r.v);
    BitwiseFolds(BAND, l, Cnst(U, r.v - 1));
  }

  lemma BitwiseFolds(op: Operator, l: Expr, r: Expr)
    requires Defined(op, U, l, r) && op.Bitwise()
    ensures Simplifier.Bitwise(op, l, r, true).Cnst?
  {
  }

  lemma {:induction false} ProductFolds(t: Type, l: Expr, r: Expr)
    requires Defined(MUL, t, l, r)
    ensures Product(t, l, r, true).Cnst?
  {
    if l.v > 0 && Log2(l.v) != 0 {
      Power32();
      Log2IsLog(l.v);
    }
  }

  lemma ComparisonFolds(op: Operator, t: Type, l: Expr, r: Expr)
    requires Defined(op, t, l, r) && op.Compares()
    ensures Comparison(op, t, l, r, true).Cnst? <==> !KeptForEffects(op, t, l.v, r.v)
  {
  }

  /** An operation on constants gives a constant, unless it is one of the exceptions. */
  lemma ConstantsFold(op: Operator, t: Type, l: Expr, r: Expr)
    requires Defined(op, t, l, r)
    ensures Simplify(op, t, l, r, true).Cnst? <==> !KeptForEffects(op, t, l.v, r.v)
  {
    if op.ADD? || op.SUB? {
      SumFolds(op, t, l, r);
    } else if op.MUL? {
      ProductFolds(t, l, r);
    } else if op.DIV? || op.MOD? {
      DivisionFolds(op, t, l, r);
    } else if op.Shifts() {
      ShiftFolds(op, t, l, r);
    } else if op.Bitwise() {
      BitwiseFolds(op, l, r);
    } else {
      ComparisonFolds(op, t, l, r);
    }
  }

  // ----- Operations on what is not a constant -----

  /** A tree that is no constant, and that no further operation makes one. */
  predicate Firm(f: Expr) {
    match f
    case Cnst(_, _) => false
    case Com(_, l) => Firm(l)
    case Neg(l) => Firm(l)
    case Binary(op, t, l, r) => IsSum(f) ==> Firm(l)
    case _ => true
  }

  predicate OneFirm(l: Expr, r: Expr) {
    (l.Cnst? || Firm(l)) && (r.Cnst? || Firm(r)) && !(l.Cnst? && r.Cnst?)
  }

  lemma SumStays(op: Operator, t: Type, l: Expr, r: Expr, fits: bool)
    requires OneFirm(l, r) && (op.ADD? || op.SUB?)
    ensures Firm(Sum(op, t, l, r, fits))
  {
  }

  lemma BitwiseStays(op: Operator, l: Expr, r: Expr)
    requires OneFirm(l, r) && op.Bitwise()
    ensures Firm(Simplifier.Bitwise(op, l, r, true))
  {
    assert Firm(BitwiseByConst(op, Commuted(op, U, l, r), true));
  }

  lemma ShiftStays(op: Operator, t: Type, l: Expr, r: Expr, fits: bool)
    requires OneFirm(l, r) && op.Shifts()
    ensures Firm(Shift(op, t, l, r, fits))
  {
  }

  lemma DivisionStays(op: Operator, t: Type, l: Expr, r: Expr, fits: bool)
    requires OneFirm(l, r) && (op.DIV? || op.MOD?)
    ensures Firm(Divide(op, t, l, r, fits, true))
  {
    if t.U? && IsConst(r, U) && r.v > 1 && Log2(r.v) != 0 {
      ShiftStays(RSH, U, l, Cnst(I, Log2(r.v)), true);
      BitwiseStays(BAND, l, Cnst(U, r.v - 1));
    } else {
      var f := Divide(op, t, l, r, fits, true);
      assert f == l || f.Right? || f == Binary(op, t, l, r);
    }
  }

  lemma {:induction false} MultipleStays(t: Type, c: Expr, r: Expr)
    requires c.Cnst? && Firm(r)
    ensures Firm(Multiple(t, c, r, true))
    decreases r
  {
    if t.I? && IsConst(c, I) && IsSum(r) {
      MultipleStays(I, c, r.l);
      var x, y := Multiple(I, c, r.l, true), Multiple(I, c, r.r, true);
      ProductOfConstants(c, r.r);
      SumStays(r.op, I, x, y, MayFold(r.op, x, y, true));
    } else if c.v > 0 {
      ShiftStays(LSH, t, r, Cnst(I, Log2(c.v)), MayFold(LSH, r, Cnst(I, Log2(c.v)), true));
    }
  }

  lemma ProductStays(t: Type, l: Expr, r: Expr)
    requires OneFirm(l, r)
    ensures Firm(Product(t, l, r, true))
  {
    if l.Cnst? {
      MultipleStays(t, l, r);
    } else if r.Cnst? {
      MultipleStays(t, r, l);
    }
  }

  lemma ProductOfConstants(c: Expr, r: Expr)
    requires c.Cnst? && r.Cnst?
    ensures var y := Multiple(I, c, r, true); y.Cnst? || Firm(y)
  {
  }

  lemma {:induction false} ComparisonStays(op: Operator, t: Type, l: Expr, r: Expr)
    requires OneFirm(l, r) && op.Compares()
    ensures Firm(Comparison(op, t, l, r, true))
  {
    var f := Comparison(op, t, l, r, true);
    if op.EQ? || op.NE? {
      assert f == Commuted(op, I, l, r);
    } else {
      assert f.Right? || (f.Binary? && f.op.Compares());
    }
  }

  /** An operation on anything else gives no constant. */
  lemma OperationStays(op: Operator, t: Type, l: Expr, r: Expr)
    requires OneFirm(l, r)
    ensures Firm(Simplify(op, t, l, r, true))
  {
    var fits := MayFold(op, l, r, true);
    var f := Simplify(op, t, l, r, true);
    if op.ADD? || op.SUB? {
      assert f == Sum(op, t, l, r, fits);
      SumStays(op, t, l, r, fits);
    } else if op.MUL? {
      assert f == Product(t, l, r, true);
      ProductStays(t, l, r);
    } else if op.DIV? || op.MOD? {
      assert f == Divide(op, t, l, r, fits, true);
      DivisionStays(op, t, l, r, fits);
    } else if op.Shifts() {
      assert f == Shift(op, t, l, r, fits);
      ShiftStays(op, t, l, r, fits);
    } else if op.Bitwise() {
      assert f == Simplifier.Bitwise(op, l, r, true);
      BitwiseStays(op, l, r);
    } else {
      assert f == Comparison(op, t, l, r, true);
      ComparisonStays(op, t, l, r);
    }
  }

  // ----- The theorem -----

  /** What is settled has the value of the tree. */
  lemma SettledValue(e: Expr, f: Expr)
    requires Constant(e) && WellTyped(e) && f == Fold(e, true) && ValueOf(e).Value?
    ensures f.Cnst? ==> f.t == TypeOf(e) && InRange(f.t, f.v) && f.v == ValueOf(e).v
  {
    FoldReplaces(e, true, NoWorld(), []);
    if f.Cnst? {
      WrapId(f.t, f.v);
    }
  }

  lemma {:induction false} ConstantSettles(e: Expr)
    requires Constant(e) && WellTyped(e) && ValueOf(e).Value?
    ensures Fold(e, true).Cnst? <==> Foldable(e)
    ensures !Foldable(e) ==> Firm(Fold(e, true))
    decreases e, 1
  {
    match e
    case Cnst(_, _) =>
    case Binary(op, t, l, r) => OperationSettles(e);
    case Neg(l) => ConstantSettles(l); SettledValue(l, Fold(l, true));
    case Com(t, l) => ConstantSettles(l); SettledValue(l, Fold(l, true));
    case Cvt(t, l) => ConstantSettles(l); SettledValue(l, Fold(l, true));
    case And(l, r) => JunctionSettles(e);
    case Or(l, r) => JunctionSettles(e);
    case Not(l) => ConstantSettles(l); SettledValue(l, Fold(l, true));
  }

  lemma OperationSettles(e: Expr)
    requires Constant(e) && WellTyped(e) && ValueOf(e).Value? && e.Binary?
    ensures Fold(e, true).Cnst? <==> Foldable(e)
    ensures !Foldable(e) ==> Firm(Fold(e, true))
    decreases e, 0
  {
    OperandValues(e);
    ConstantSettles(e.l);
    ConstantSettles(e.r);
    SettledValue(e.l, Fold(e.l, true));
    SettledValue(e.r, Fold(e.r, true));
    ResultSettles(e, Fold(e.l, true), Fold(e.r, true), Fold(e, true));
  }

  lemma OperandValues(e: Expr)
    requires Constant(e) && ValueOf(e).Value? && e.Binary?
    ensures ValueOf(e.l).Value? && ValueOf(e.r).Value?
    ensures Computed(e.op, e.t, ValueOf(e.l).v, ValueOf(e.r).v, []).Value?
  {
    ConstantValue(e.l, NoWorld(), []);
    ConstantValue(e.r, NoWorld(), []);
  }

  /** l and r are what the operands of e become, f is what e does. */
  lemma ResultSettles(e: Expr, l: Expr, r: Expr, f: Expr)
    requires WellTyped(e) && Constant(e) && e.Binary? && ValueOf(e).Value?
    requires ValueOf(e.l).Value? && ValueOf(e.r).Value? && f == Simplify(e.op, e.t, l, r, true)
    requires if l.Cnst? then l.t == TypeOf(e.l) && InRange(l.t, l.v) && l.v == ValueOf(e.l).v else Firm(l)
    requires if r.Cnst? then r.t == TypeOf(e.r) && InRange(r.t, r.v) && r.v == ValueOf(e.r).v else Firm(r)
    requires (l.Cnst? <==> Foldable(e.l)) && (r.Cnst? <==> Foldable(e.r))
    ensures f.Cnst? <==> Foldable(e)
    ensures !Foldable(e) ==> Firm(f)
  {
    if l.Cnst? && r.Cnst? {
      OperandsDefined(e, l, r);
      ConstantsFold(e.op, e.t, l, r);
      if KeptForEffects(e.op, e.t, l.v, r.v) {
        KeptStays(e.op, e.t, l, r);
      }
    } else {
      OperationStays(e.op, e.t, l, r);
    }
  }

  lemma KeptStays(op: Operator, t: Type, l: Expr, r: Expr)
    requires Defined(op, t, l, r) && KeptForEffects(op, t, l.v, r.v)
    ensures Firm(Simplify(op, t, l, r, true))
  {
    assert Simplify(op, t, l, r, true).Right?;
  }

  lemma OperandsDefined(e: Expr, l: Expr, r: Expr)
    requires WellTyped(e) && Constant(e) && e.Binary? && ValueOf(e).Value? && l.Cnst? && r.Cnst?
    requires l.t == TypeOf(e.l) && InRange(l.t, l.v) && ValueOf(e.l).Value? && l.v == ValueOf(e.l).v
    requires r.t == TypeOf(e.r) && InRange(r.t, r.v) && ValueOf(e.r).Value? && r.v == ValueOf(e.r).v
    ensures Defined(e.op, e.t, l, r)
  {
    OperandValues(e);
    WrapId(l.t, l.v);
    WrapId(r.t, r.v);
  }

  lemma JunctionSettles(e: Expr)
    requires Constant(e) && WellTyped(e) && ValueOf(e).Value? && (e.And? || e.Or?)
    ensures Fold(e, true).Cnst? <==> Foldable(e)
    ensures !Foldable(e) ==> Firm(Fold(e, true))
    decreases e, 0
  {
    var l, r := Fold(e.l, true), Fold(e.r, true);
    ConstantValue(e.l, NoWorld(), []);
    ConstantSettles(e.l);
    SettledValue(e.l, l);
    if l.Cnst? && (l.v != 0) == e.And? {
      ConstantSettles(e.r);
      SettledValue(e.r, r);
      ConditionSettles(r);
    }
  }

  /** A condition is constant when the tree is. */
  lemma ConditionSettles(e: Expr)
    requires (e.Cnst? && InRange(e.t, e.v)) || Firm(e)
    ensures if e.Cnst? then Condition(e, true).Cnst? else Firm(Condition(e, true))
  {
    if e.Cnst? {
      ComparisonFolds(NE, e.t, e, Cnst(e.t, 0));
    } else if !IsLogical(RightKid(e)) {
      ComparisonStays(NE, TypeOf(e), e, Cnst(TypeOf(e), 0));
    }
  }

  /** Where a constant is needed, a tree of constants that has a value becomes that constant exactly
      when no operation that counts is one of the exceptions. */
  lemma ConstantFolds(e: Expr)
    requires Constant(e) && WellTyped(e) && ValueOf(e).Value?
    ensures Fold(e, true).Cnst? <==> Foldable(e)
    ensures Foldable(e) ==> Fold(e, true) == Cnst(TypeOf(e), ValueOf(e).v)
  {
    ConstantSettles(e);
    SettledValue(e, Fold(e, true));
  }

  /** Whatever is compared, unsigned, with 0 in this way has the value 1 and is no constant. */
  lemma KeptExample(x: int)
    requires InRange(U, x)
    ensures var e := Binary(GE, U, Cnst(U, x), Cnst(U, 0));
      Constant(e) && WellTyped(e) && ValueOf(e) == Value(1, []) && !Fold(e, true).Cnst?
  {
    WrapId(U, x);
    WrapId(U, 0);
    assert ValueOf(Cnst(U, x)) == Value(x, []) && ValueOf(Cnst(U, 0)) == Value(0, []);
    assert Computed(GE, U, x, 0, []) == Value(1, []);
    ConstantFolds(Binary(GE, U, Cnst(U, x), Cnst(U, 0)));
  }
}
