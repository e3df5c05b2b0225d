/** When simplification stops: the trees that it leaves alone are exactly those to which none of its
    rules applies, and every tree it makes is one. */
module NormalForms {
  import opened Bits
  import opened Folding
  import opened Simplifier
  import opened FoldingMeaning
  import Operators

  ghost predicate IsPowerOfTwo(v: int) {
    exists n: nat {:trigger Power2(n)} :: 1 <= n < 32 && v == Power2(n)
  }

  /** How the product of two ints is judged. A positive factor and a negative one are told to fit when
      they do not. */
  predicate MulTest(x: int, y: int) {
    if x > 1 && y < 0 then x * y <= INT_MIN else IsInt(x * y)
  }

  /** A rule for op applies to the operands. */
  ghost predicate Reducible(op: Operator, t: Type, l: Expr, r: Expr, needconst: bool) {
    var both := BothConst(l, r, t);
    var swapped := l.Cnst? && !r.Cnst?;
    var any := t.U? || needconst;      // constants of any size may be folded
    match op
    case ADD => swapped || (both && (any || IsInt(l.v + r.v)))
    case SUB => both && (any || IsInt(l.v - r.v) || l.v == 0)
    case MUL =>
      || (r.Cnst? && !l.Cnst?)
      || (IsConst(l, t) && (IsPowerOfTwo(l.v) || (t.I? && r.Binary? && (r.op.ADD? || r.op.SUB?) && IsConst(r.r, I)
                                                  && r.t.I?)))
      || (both && (any || MulTest(l.v, r.v)))
    case DIV =>
      || IsValue(r, t, 1) || (t.U? && IsConst(r, U) && IsPowerOfTwo(r.v))
      || (both && r.v != 0 && !(t.I? && l.v == INT_MIN && r.v == -1))
    case MOD =>
      || (t.I? && IsValue(r, I, 1)) || (t.U? && IsConst(r, U) && IsPowerOfTwo(r.v))
      || (both && r.v != 0 && !(t.I? && l.v == INT_MIN && r.v == -1))
    case LSH =>
      || IsValue(r, I, 0)
      || (IsConst(l, t) && IsConst(r, I) && 0 <= r.v < 32
          && (any || if r.v == 31 then l.v >= 0 else IsInt(l.v * Power2(r.v))))
    case RSH => IsValue(r, I, 0) || (IsConst(l, t) && IsConst(r, I) && 0 <= r.v < 32)
    case BAND => both || swapped || IsValue(r, U, 0) || IsValue(r, U, 0xffff_ffff)
    case BOR => both || swapped || IsValue(r, U, 0)
    case BXOR => both || swapped || IsValue(r, U, 0)
    case EQ => t.U? || both || swapped
    case NE => t.U? || both || swapped
    case _ => both || (t.U? && (IsValue(l, U, 0) || IsValue(r, U, 0)))
  }

  /** No rule applies anywhere in the tree. */
  ghost predicate Normal(e: Expr, needconst: bool) {
    match e
    case Cnst(_, _) => true
    case Leaf(_, _) => true
    case Load(_, l) => Normal(l, needconst)
    case Binary(op, t, l, r) => Normal(l, needconst) && Normal(r, needconst) && !Reducible(op, t, l, r, needconst)
    case Neg(l) => Normal(l, needconst) && !l.Neg? && (IsConst(l, I) ==> l.v == INT_MIN && !needconst)
    case Com(t, l) => Normal(l, needconst) && !l.Com? && !IsConst(l, t)
    case Cvt(t, l) => Normal(l, needconst) && (l.Cnst? && l.t != t ==> t.I? && l.v > INT_MAX && !needconst)
    case And(l, r) => Normal(l, needconst) && Normal(r, needconst) && !IsConst(l, I)
    case Or(l, r) => Normal(l, needconst) && Normal(r, needconst) && !IsConst(l, I)
    case Not(l) => Normal(l, needconst) && !IsConst(l, I)
    case Right(l, r) => Normal(l, needconst) && Normal(r, needconst)
    case Nothing => true
  }

  // ----- The tests for overflow -----

  lemma AddFitsIff(x: int, y: int, needconst: bool)
    requires IsInt(x) && IsInt(y)
    ensures Folds(ADD, x, y, needconst) <==> needconst || IsInt(x + y)
    ensures Folds(SUB, x, y, needconst) <==> needconst || IsInt(x - y) || x == 0
  {
  }

  lemma MulFitsIff(x: int, y: int, needconst: bool)
    requires IsInt(x) && IsInt(y)
    ensures Folds(MUL, x, y, needconst) <==> needconst || MulTest(x, y)
  {
    var a, b, min, max := x as real, y as real, INT_MIN as real, INT_MAX as real;
    assert (x * y) as real == a * b;
    ProductSign(x, y);
    if b != 0.0 {
      QuotientTest(a, b, max);
      QuotientTest(a, b, min);
    }
  }

  lemma ProductSign(x: int, y: int)
    ensures (x < 0 && y < 0) || (x > 0 && y > 0) ==> x * y > 0
    ensures (x < 0 && y > 0) || (x > 0 && y < 0) ==> x * y < 0
    ensures x == 0 || y == 0 ==> x * y == 0
    ensures (x == 1 ==> x * y == y) && (y == 1 ==> x * y == x)
  {
  }

  /** A shift by 31 is judged as a multiplication by -2^31. */
  lemma ShiftFitsIff(x: int, n: nat, needconst: bool)
    requires IsInt(x) && n < 32
    ensures Folds(MUL, x, Wrap(I, Power2(n)), needconst) <==>
      needconst || if n == 31 then x >= 0 else IsInt(x * Power2(n))
  {
    Power32();
    if n < 31 {
      PowerLess(n, 31);
    }
    MulFitsIff(x, Wrap(I, Power2(n)), needconst);
  }

  /** Comparing with a quotient is comparing products. */
  lemma QuotientTest(a: real, b: real, c: real)
    requires b != 0.0
    ensures b > 0.0 ==> (a <= c / b <==> a * b <= c) && (a >= c / b <==> a * b >= c)
    ensures b < 0.0 ==> (-a <= c / -b <==> a * b <= c) && (a >= c / b <==> a * b <= c)
  {
    var q := c / b;
    assert q * b == c;
    if b > 0.0 {
      Scaled(a, q, b);
    } else {
      assert c / -b == -q;
      Scaled(-a, -q, -b);
    }
  }

  lemma Scaled(a: real, q: real, b: real)
    requires b > 0.0
    ensures a <= q <==> a * b <= q * b
    ensures a >= q <==> a * b >= q * b
  {
    assert a * b - q * b == (a - q) * b;
  }

  /** The tests tell which results are ints, but for three families. */
  lemma OverflowTests(x: int, y: int)
    requires IsInt(x) && IsInt(y)
    ensures Folds(ADD, x, y, false) <==> IsInt(x + y)
    ensures (Folds(SUB, x, y, false) <==> IsInt(x - y)) <==> !(x == 0 && y == INT_MIN)
    ensures (Folds(MUL, x, y, false) <==> IsInt(x * y)) <==> !(x > 1 && y < 0) || x * y == INT_MIN
    ensures y != 0 ==> ((Folds(DIV, x, y, false) <==> IsInt(Quotient(x, y))) <==> !(x == INT_MIN && y == 1))
  {
    AddFitsIff(x, y, false);
    MulFitsIff(x, y, false);
    if y != 0 {
      DivFitsIff(x, y, false);
      Operators.DivisionTruncates(I, x, y);
    }
  }

  /** A product that is an int, and is not folded. */
  lemma UnfoldedExample()
    ensures Simplify(MUL, I, Cnst(I, 999), Cnst(I, -3), false) == Binary(MUL, I, Cnst(I, 999), Cnst(I, -3))
  {
    OddFactor(999);
    MulFitsIff(999, -3, false);
  }

  /** A product that is none, and is folded to what it wraps around to. */
  lemma WrappedExample()
    ensures Simplify(MUL, I, Cnst(I, 0x4000_0001), Cnst(I, -4), false) == Cnst(I, -4)
  {
    OddFactor(0x4000_0001);
    MulFitsIff(0x4000_0001, -4, false);
  }

  lemma OddFactor(v: int)
    requires 0 <= v < WORD && v % 2 == 1
    ensures !IsPowerOfTwo(v) && Log2(v) == 0
  {
    forall n: nat {:trigger Power2(n)} | 1 <= n < 32 ensures Power2(n) != v {
      assert Power2(n) == 2 * Power2(n - 1);
    }
    PowerIff(v);
  }

  lemma PowerIff(v: int)
    requires 0 <= v < WORD
    ensures IsPowerOfTwo(v) <==> v > 1 && Log2(v) != 0
  {
    Power32();
    if IsPowerOfTwo(v) {
      var n: nat :| 1 <= n < 32 && v == Power2(n);
      PowerHasLog2(n);
      PowerLess(0, n);
    }
    if v > 1 && Log2(v) != 0 {
      Log2IsLog(v);
    }
  }

  // ----- An operation is left alone exactly when no rule applies -----

  lemma SumIff(op: Operator, t: Type, l: Expr, r: Expr, needconst: bool)
    requires (op.ADD? || op.SUB?) && WellTyped(Binary(op, t, l, r))
    ensures Sum(op, t, l, r, MayFold(op, l, r, needconst)) == Binary(op, t, l, r)
      <==> !Reducible(op, t, l, r, needconst)
  {
    if BothConst(l, r, I) {
      AddFitsIff(l.v, r.v, needconst);
    }
  }

  lemma ShiftIff(op: Operator, t: Type, l: Expr, r: Expr, needconst: bool)
    requires op.Shifts() && WellTyped(Binary(op, t, l, r))
    ensures Shift(op, t, l, r, MayFold(op, l, r, needconst)) == Binary(op, t, l, r)
      <==> !Reducible(op, t, l, r, needconst)
  {
    if IsConst(l, I) && IsConst(r, I) && 0 <= r.v < 32 {
      ShiftFitsIff(l.v, r.v, needconst);
    }
  }

  /** A tree is none of its operands. */
  lemma NotItself(op: Operator, t: Type, l: Expr, r: Expr)
    ensures l != Binary(op, t, l, r) && r != Binary(op, t, l, r)
  {
    var e := Binary(op, t, l, r);
    assert l < e && r < e;
  }

  lemma BitwiseIff(op: Operator, l: Expr, r: Expr, needconst: bool)
    requires op.Bitwise() && WellTyped(Binary(op, U, l, r))
    ensures Simplifier.Bitwise(op, l, r, needconst) == Binary(op, U, l, r) <==> !Reducible(op, U, l, r, needconst)
  {
    NotItself(op, U, l, r);
    if BothConst(l, r, U) {
      Operators.BitwiseBits(op, l.v, r.v, 0);
    }
  }

  lemma DivideIff(op: Operator, t: Type, l: Expr, r: Expr, needconst: bool)
    requires (op.DIV? || op.MOD?) && WellTyped(Binary(op, t, l, r))
    ensures Divide(op, t, l, r, MayFold(op, l, r, needconst), needconst) == Binary(op, t, l, r)
      <==> !Reducible(op, t, l, r, needconst)
  {
    NotItself(op, t, l, r);
    if IsConst(r, t) && (r.v == 0 || r.v == 1) {
      DivideBySmall(op, t, l, r, needconst);
    } else if IsConst(r, U) && Log2(r.v) != 0 {
      PowerIff(r.v);
      DivideByPower(op, l, r, needconst);
    } else {
      if IsConst(r, U) {
        PowerIff(r.v);
      }
      DividePlainly(op, t, l, r, needconst);
    }
  }

  lemma DivideBySmall(op: Operator, t: Type, l: Expr, r: Expr, needconst: bool)
    requires (op.DIV? || op.MOD?) && WellTyped(Binary(op, t, l, r)) && IsConst(r, t) && (r.v == 0 || r.v == 1)
    requires l != Binary(op, t, l, r)
    ensures Divide(op, t, l, r, MayFold(op, l, r, needconst), needconst) == Binary(op, t, l, r)
      <==> !Reducible(op, t, l, r, needconst)
  {
    if IsConst(r, U) {
      PowerIff(r.v);
    }
    if r.v == 1 && BothConst(l, r, t) {
      FoldDivisionIff(op, t, l, r, needconst);
    }
  }

  lemma DivideByPower(op: Operator, l: Expr, r: Expr, needconst: bool)
    requires (op.DIV? || op.MOD?) && WellTyped(Binary(op, U, l, r)) && IsConst(r, U)
    requires r.v > 1 && Log2(r.v) != 0 && l != Binary(op, U, l, r)
    ensures Divide(op, U, l, r, MayFold(op, l, r, needconst), needconst) != Binary(op, U, l, r)
  {
  }

  lemma DividePlainly(op: Operator, t: Type, l: Expr, r: Expr, needconst: bool)
    requires (op.DIV? || op.MOD?) && WellTyped(Binary(op, t, l, r)) && (IsConst(r, t) ==> r.v != 0 && r.v != 1)
    requires IsConst(r, U) && r.v > 1 ==> Log2(r.v) == 0 && !IsPowerOfTwo(r.v)
    ensures Divide(op, t, l, r, MayFold(op, l, r, needconst), needconst) == Binary(op, t, l, r)
      <==> !Reducible(op, t, l, r, needconst)
  {
    if BothConst(l, r, t) {
      FoldDivisionIff(op, t, l, r, needconst);
    }
  }

  lemma FoldDivisionIff(op: Operator, t: Type, l: Expr, r: Expr, needconst: bool)
    requires (op.DIV? || op.MOD?) && WellTyped(Binary(op, t, l, r)) && BothConst(l, r, t) && r.v != 0
    ensures FoldDivision(op, t, l, r, MayFold(op, l, r, needconst)) == Binary(op, t, l, r)
      <==> t.I? && ((l.v == INT_MIN && r.v == -1) || (l.v == INT_MIN && r.v == 1 && !needconst))
  {
    Operators.DivisionTruncates(t, l.v, r.v);
    DivFitsIff(l.v, r.v, needconst);
  }

  lemma DivFitsIff(x: int, y: int, needconst: bool)
    requires y != 0
    ensures DivFits(x as real, y as real, INT_MAX as real, needconst) <==>
      Abs(y) > 1 || Abs(x) <= INT_MAX || needconst
  {
  }

  lemma ProductIff(t: Type, l: Expr, r: Expr, needconst: bool)
    requires WellTyped(Binary(MUL, t, l, r))
    ensures Product(t, l, r, needconst) == Binary(MUL, t, l, r) <==> !Reducible(MUL, t, l, r, needconst)
  {
    if r.Cnst? && !l.Cnst? {
      MultipleDiffers(t, r, l, needconst);
    } else if l.Cnst? {
      MultipleIff(t, l, r, needconst);
    }
  }

  lemma {:induction false} MultipleDiffers(t: Type, c: Expr, r: Expr, needconst: bool)
    requires c.Cnst? && !r.Cnst?
    ensures Multiple(t, c, r, needconst) != Binary(MUL, t, r, c)
  {
    NotItself(MUL, t, r, c);
  }

  lemma {:induction false} MultipleIff(t: Type, c: Expr, r: Expr, needconst: bool)
    requires IsConst(c, t) && WellTyped(Binary(MUL, t, c, r))
    ensures Multiple(t, c, r, needconst) == Binary(MUL, t, c, r) <==> !Reducible(MUL, t, c, r, needconst)
  {
    if !(t.I? && IsSum(r)) {
      FoldMultipleIff(t, c, r, MayFold(MUL, c, r, needconst),
        MayFold(LSH, r, Cnst(I, if c.v < 0 then 0 else Log2(c.v)), needconst), needconst);
    }
  }

  lemma {:induction false} FoldMultipleIff(t: Type, c: Expr, r: Expr, fits: bool, shiftFits: bool, needconst: bool)
    requires IsConst(c, t) && WellTyped(Binary(MUL, t, c, r)) && !(t.I? && IsSum(r))
    requires fits == MayFold(MUL, c, r, needconst)
    ensures FoldMultiple(t, c, r, fits, shiftFits) == Binary(MUL, t, c, r) <==> !Reducible(MUL, t, c, r, needconst)
  {
    NotItself(MUL, t, c, r);
    if c.v >= 0 {
      PowerIff(c.v);
    }
    if BothConst(c, r, I) {
      MulFitsIff(c.v, r.v, needconst);
    }
  }

  lemma ComparisonIff(op: Operator, t: Type, l: Expr, r: Expr, needconst: bool)
    requires op.Compares() && WellTyped(Binary(op, t, l, r))
    ensures Comparison(op, t, l, r, needconst) == Binary(op, t, l, r) <==> !Reducible(op, t, l, r, needconst)
  {
  }

  lemma SimplifyIff(op: Operator, t: Type, l: Expr, r: Expr, needconst: bool)
    requires WellTyped(Binary(op, t, l, r))
    ensures Simplify(op, t, l, r, needconst) == Binary(op, t, l, r) <==> !Reducible(op, t, l, r, needconst)
  {
    if op.ADD? || op.SUB? {
      SumIff(op, t, l, r, needconst);
    } else if op.MUL? {
      ProductIff(t, l, r, needconst);
    } else if op.DIV? || op.MOD? {
      DivideIff(op, t, l, r, needconst);
    } else if op.Shifts() {
      ShiftIff(op, t, l, r, needconst);
    } else if op.Bitwise() {
      BitwiseIff(op, l, r, needconst);
    } else {
      ComparisonIff(op, t, l, r, needconst);
    }
  }

  // ----- What simplification makes is normal -----

  lemma {:induction false} RootNormal(e: Expr, needconst: bool)
    requires Normal(e, needconst)
    ensures Normal(Root(e, needconst), needconst)
  {
    match e
    case Cnst(_, _) =>
    case Leaf(_, _) =>
    case Load(_, l) => RootNormal(l, needconst);
    case Binary(_, _, l, r) =>
      RootNormal(l, needconst);
      RootNormal(r, needconst);
    case Neg(l) => RootNormal(l, needconst);
    case Com(_, l) => RootNormal(l, needconst);
    case Cvt(_, l) => RootNormal(l, needconst);
    case And(l, r) =>
      RootNormal(l, needconst);
      RootNormal(r, needconst);
    case Or(l, r) =>
      RootNormal(l, needconst);
      RootNormal(r, needconst);
    case Not(l) => RootNormal(l, needconst);
    case Right(l, r) =>
      RootNormal(l, needconst);
      RootNormal(r, needconst);
    case Nothing =>
  }

  lemma {:induction false} SumNormal(op: Operator, t: Type, l: Expr, r: Expr, needconst: bool)
    requires (op.ADD? || op.SUB?) && WellTyped(Binary(op, t, l, r)) && Normal(l, needconst) && Normal(r, needconst)
    ensures Normal(Sum(op, t, l, r, MayFold(op, l, r, needconst)), needconst)
  {
    SumIff(op, t, l, r, needconst);
  }

  lemma {:induction false} ShiftNormal(op: Operator, t: Type, l: Expr, r: Expr, needconst: bool)
    requires op.Shifts() && WellTyped(Binary(op, t, l, r)) && Normal(l, needconst) && Normal(r, needconst)
    ensures Normal(Shift(op, t, l, r, MayFold(op, l, r, needconst)), needconst)
  {
    ShiftIff(op, t, l, r, needconst);
  }

  lemma {:induction false} BitwiseNormal(op: Operator, l: Expr, r: Expr, needconst: bool)
    requires op.Bitwise() && WellTyped(Binary(op, U, l, r)) && Normal(l, needconst) && Normal(r, needconst)
    ensures Normal(Simplifier.Bitwise(op, l, r, needconst), needconst)
  {
    RootNormal(l, needconst);
    RootNormal(r, needconst);
    if BothConst(l, r, U) {
      Operators.BitwiseBits(op, l.v, r.v, 0);
    }
  }

  lemma {:induction false} DivideNormal(op: Operator, t: Type, l: Expr, r: Expr, needconst: bool)
    requires (op.DIV? || op.MOD?) && WellTyped(Binary(op, t, l, r)) && Normal(l, needconst) && Normal(r, needconst)
    ensures Normal(Divide(op, t, l, r, MayFold(op, l, r, needconst), needconst), needconst)
  {
    if t.U? && IsConst(r, U) && r.v > 1 && Log2(r.v) != 0 {
      PowerNormal(op, l, r, needconst);
    } else {
      PlainDivideNormal(op, t, l, r, needconst);
    }
  }

  lemma {:induction false} PowerNormal(op: Operator, l: Expr, r: Expr, needconst: bool)
    requires (op.DIV? || op.MOD?) && WellTyped(Binary(op, U, l, r)) && Normal(l, needconst)
    requires IsConst(r, U) && r.v > 1 && Log2(r.v) != 0
    ensures Normal(Divide(op, U, l, r, MayFold(op, l, r, needconst), needconst), needconst)
  {
    Power32();
    Log2IsLog(r.v);
    if op.DIV? {
      ShiftNormal(RSH, U, l, Cnst(I, Log2(r.v)), needconst);
    } else {
      BitwiseNormal(BAND, l, Cnst(U, r.v - 1), needconst);
    }
  }

  lemma {:induction false} PlainDivideNormal(op: Operator, t: Type, l: Expr, r: Expr, needconst: bool)
    requires (op.DIV? || op.MOD?) && WellTyped(Binary(op, t, l, r)) && Normal(l, needconst) && Normal(r, needconst)
    requires !(t.U? && IsConst(r, U) && r.v > 1 && Log2(r.v) != 0)
    ensures Normal(Divide(op, t, l, r, MayFold(op, l, r, needconst), needconst), needconst)
  {
    RootNormal(l, needconst);
    DivideIff(op, t, l, r, needconst);
  }

  lemma {:induction false} MultipleNormal(t: Type, c: Expr, r: Expr, needconst: bool)
    requires IsConst(c, t) && WellTyped(Binary(MUL, t, c, r)) && Normal(r, needconst)
    ensures Normal(Multiple(t, c, r, needconst), needconst)
    decreases r
  {
    if t.I? && IsSum(r) {
      var x, y := Multiple(I, c, r.l, needconst), Multiple(I, c, r.r, needconst);
      MultipleNormal(I, c, r.l, needconst);
      MultipleNormal(I, c, r.r, needconst);
      MultipleReplaces(I, c, r.l, needconst, SomeWorld(), []);
      MultipleReplaces(I, c, r.r, needconst, SomeWorld(), []);
      SumNormal(r.op, I, x, y, needconst);
    } else {
      PlainMultipleNormal(t, c, r, needconst);
    }
  }

  function SomeWorld(): World {
    World((_, _) => 0, (_, _) => 0)
  }

  lemma {:induction false} PlainMultipleNormal(t: Type, c: Expr, r: Expr, needconst: bool)
    requires IsConst(c, t) && WellTyped(Binary(MUL, t, c, r)) && Normal(r, needconst) && !(t.I? && IsSum(r))
    ensures Normal(Multiple(t, c, r, needconst), needconst)
  {
    if c.v > 0 && Log2(c.v) != 0 {
      Power32();
      Log2IsLog(c.v);
      ShiftNormal(LSH, t, r, Cnst(I, Log2(c.v)), needconst);
    } else {
      if c.v >= 0 {
        PowerIff(c.v);
      }
      ProductIff(t, c, r, needconst);
    }
  }

  lemma {:induction false} ProductNormal(t: Type, l: Expr, r: Expr, needconst: bool)
    requires WellTyped(Binary(MUL, t, l, r)) && Normal(l, needconst) && Normal(r, needconst)
    ensures Normal(Product(t, l, r, needconst), needconst)
  {
    if r.Cnst? && !l.Cnst? {
      MultipleNormal(t, r, l, needconst);
    } else if l.Cnst? {
      MultipleNormal(t, l, r, needconst);
    }
  }

  lemma {:induction false} ComparisonNormal(op: Operator, t: Type, l: Expr, r: Expr, needconst: bool)
    requires op.Compares() && WellTyped(Binary(op, t, l, r)) && Normal(l, needconst) && Normal(r, needconst)
    ensures Normal(Comparison(op, t, l, r, needconst), needconst)
  {
    if op.EQ? || op.NE? {
      EqualityNormal(op, t, l, r, needconst);
    } else if t.U? && (IsValue(l, U, 0) || IsValue(r, U, 0)) {
      ZeroComparisonNormal(op, l, r, needconst);
    } else {
      ComparisonIff(op, t, l, r, needconst);
      assert Comparison(op, t, l, r, needconst).Cnst? || Comparison(op, t, l, r, needconst) == Binary(op, t, l, r);
    }
  }

  lemma {:induction false} EqualityNormal(op: Operator, t: Type, l: Expr, r: Expr, needconst: bool)
    requires (op.EQ? || op.NE?) && WellTyped(Binary(op, t, l, r)) && Normal(l, needconst) && Normal(r, needconst)
    ensures Normal(Comparison(op, t, l, r, needconst), needconst)
  {
  }

  lemma {:induction false} ZeroComparisonNormal(op: Operator, l: Expr, r: Expr, needconst: bool)
    requires op.Compares() && !op.EQ? && !op.NE? && WellTyped(Binary(op, U, l, r))
    requires Normal(l, needconst) && Normal(r, needconst) && (IsValue(l, U, 0) || IsValue(r, U, 0))
    ensures Normal(Comparison(op, U, l, r, needconst), needconst)
  {
    RootNormal(l, needconst);
    RootNormal(r, needconst);
  }

  lemma SimplifyNormal(op: Operator, t: Type, l: Expr, r: Expr, needconst: bool)
    requires WellTyped(Binary(op, t, l, r)) && Normal(l, needconst) && Normal(r, needconst)
    ensures Normal(Simplify(op, t, l, r, needconst), needconst)
  {
    if op.ADD? || op.SUB? {
      SumNormal(op, t, l, r, needconst);
    } else if op.MUL? {
      ProductNormal(t, l, r, needconst);
    } else if op.DIV? || op.MOD? {
      DivideNormal(op, t, l, r, needconst);
    } else if op.Shifts() {
      ShiftNormal(op, t, l, r, needconst);
    } else if op.Bitwise() {
      BitwiseNormal(op, l, r, needconst);
    } else {
      ComparisonNormal(op, t, l, r, needconst);
    }
  }

  lemma {:induction false} ConditionNormal(e: Expr, needconst: bool)
    requires WellTyped(e) && !e.Nothing? && Normal(e, needconst)
    ensures Normal(Condition(e, needconst), needconst)
  {
    if !IsLogical(RightKid(e)) {
      ComparisonNormal(NE, TypeOf(e), e, Cnst(TypeOf(e), 0), needconst);
    }
  }

  /** The value of e is that of a comparison, or of a logical operation. */
  predicate GivesTruth(e: Expr) {
    match e
    case And(_, _) => true
    case Or(_, _) => true
    case Not(_) => true
    case Binary(op, _, _, _) => op.EQ? || op.NE? || op.GT? || op.GE? || op.LE? || op.LT?
    case Right(l, r) => if r.Nothing? then GivesTruth(l) else GivesTruth(r)
    case _ => false
  }

  lemma {:induction false} TruthOfRightKid(e: Expr)
    ensures GivesTruth(e) <==> IsLogical(RightKid(e))
  {
    if e.Right? {
      TruthOfRightKid(if e.r.Nothing? then e.l else e.r);
    }
  }

  /** Such trees are conditions as they are; any other is compared with 0. */
  lemma {:induction false} ConditionIff(e: Expr, needconst: bool)
    requires WellTyped(e) && !e.Nothing? && !e.Cnst?
    ensures Condition(e, needconst) == if GivesTruth(e) then e else Binary(NE, I, e, Cnst(TypeOf(e), 0))
  {
    TruthOfRightKid(e);
  }

  // ----- Whole trees -----

  /** No rule applies to a simplified tree any more. */
  lemma {:induction false} FoldNormal(e: Expr, needconst: bool)
    requires WellTyped(e)
    ensures Normal(Fold(e, needconst), needconst)
    decreases e, 1
  {
    match e
    case Cnst(_, _) =>
    case Leaf(_, _) =>
    case Load(_, l) => FoldNormal(l, needconst);
    case Binary(_, _, _, _) => OperationNormal(e, needconst);
    case Neg(l) => FoldNormal(l, needconst);
    case Com(_, l) => FoldNormal(l, needconst);
    case Cvt(_, l) => FoldNormal(l, needconst);
    case And(_, _) => JunctionNormal(e, needconst);
    case Or(_, _) => JunctionNormal(e, needconst);
    case Not(l) => FoldNormal(l, needconst);
    case Right(l, r) =>
      FoldNormal(l, needconst);
      FoldNormal(r, needconst);
    case Nothing =>
  }

  lemma OperationNormal(e: Expr, needconst: bool)
    requires WellTyped(e) && e.Binary?
    ensures Normal(Fold(e, needconst), needconst)
    decreases e, 0
  {
    FoldNormal(e.l, needconst);
    FoldNormal(e.r, needconst);
    FoldReplaces(e.l, needconst, SomeWorld(), []);
    FoldReplaces(e.r, needconst, SomeWorld(), []);
    SimplifyNormal(e.op, e.t, Fold(e.l, needconst), Fold(e.r, needconst), needconst);
  }

  lemma JunctionNormal(e: Expr, needconst: bool)
    requires WellTyped(e) && (e.And? || e.Or?)
    ensures Normal(Fold(e, needconst), needconst)
    decreases e, 0
  {
    FoldNormal(e.l, needconst);
    FoldNormal(e.r, needconst);
    FoldReplaces(e.r, needconst, SomeWorld(), []);
    ConditionNormal(Fold(e.r, needconst), needconst);
  }

  /** A tree to which no rule applies is left as it is. */
  lemma {:induction false} NormalStays(e: Expr, needconst: bool)
    requires WellTyped(e) && Normal(e, needconst)
    ensures Fold(e, needconst) == e
  {
    match e
    case Cnst(_, _) =>
    case Leaf(_, _) =>
    case Load(_, l) => NormalStays(l, needconst);
    case Binary(op, t, l, r) =>
      NormalStays(l, needconst);
      NormalStays(r, needconst);
      SimplifyIff(op, t, l, r, needconst);
    case Neg(l) => NormalStays(l, needconst);
    case Com(_, l) => NormalStays(l, needconst);
    case Cvt(_, l) => NormalStays(l, needconst);
    case And(l, r) =>
      NormalStays(l, needconst);
      NormalStays(r, needconst);
    case Or(l, r) =>
      NormalStays(l, needconst);
      NormalStays(r, needconst);
    case Not(l) => NormalStays(l, needconst);
    case Right(l, r) =>
      NormalStays(l, needconst);
      NormalStays(r, needconst);
    case Nothing =>
  }

  /** The trees that simplification leaves alone are the normal ones, and simplifying twice does no more
      than simplifying once. */
  lemma FoldIff(e: Expr, needconst: bool)
    requires WellTyped(e)
    ensures Fold(e, needconst) == e <==> Normal(e, needconst)
    ensures Fold(Fold(e, needconst), needconst) == Fold(e, needconst)
  {
    FoldNormal(e, needconst);
    if Normal(e, needconst) {
      NormalStays(e, needconst);
    }
    if !e.Nothing? {
      FoldReplaces(e, needconst, SomeWorld(), []);
      NormalStays(Fold(e, needconst), needconst);
    }
  }
}
