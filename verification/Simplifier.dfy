/** Simplification of integer operations, case by case. */
module Simplifier {
  import opened Bits
  import opened Folding

  const INT_MIN := -0x8000_0000
  const INT_MAX := 0x7fff_ffff

  // ----- Tests for overflow -----

  predicate AddFits(x: real, y: real, min: real, max: real, needconst: bool) {
    || x == 0.0 || y == 0.0
    || (x < 0.0 && y < 0.0 && x >= min - y)
    || (x < 0.0 && y > 0.0)
    || (x > 0.0 && y < 0.0)
    || (x > 0.0 && y > 0.0 && x <= max - y)
    || needconst
  }

  predicate SubFits(x: real, y: real, min: real, max: real, needconst: bool) {
    AddFits(x, -y, min, max, needconst)
  }

  predicate MulFits(x: real, y: real, min: real, max: real, needconst: bool) {
    || (x > -1.0 && x <= 1.0) || (y > -1.0 && y <= 1.0)
    || (x < 0.0 && y < 0.0 && -x <= max / -y)
    || (x < 0.0 && y > 0.0 && x >= min / y)
    || (x > 0.0 && y < 0.0 && x >= min / y)
    || (x > 0.0 && y > 0.0 && x <= max / y)
    || needconst
  }

  predicate DivFits(x: real, y: real, max: real, needconst: bool) {
    var a, b := if x < 0.0 then -x else x, if y < 0.0 then -y else y;
    b != 0.0 && (b > 1.0 || a <= max * b || needconst)
  }

  /** Whether folding x op y is allowed. */
  predicate Folds(op: Operator, x: int, y: int, needconst: bool) {
    var a, b, min, max := x as real, y as real, INT_MIN as real, INT_MAX as real;
    match op
    case ADD => AddFits(a, b, min, max, needconst)
    case SUB => SubFits(a, b, min, max, needconst)
    case MUL => MulFits(a, b, min, max, needconst)
    case DIV => DivFits(a, b, max, needconst)
    case MOD => DivFits(a, b, max, needconst)
    case _ => true
  }

  predicate IsConst(e: Expr, t: Type) {
    e.Cnst? && e.t == t
  }

  predicate IsValue(e: Expr, t: Type, v: int) {
    IsConst(e, t) && e.v == v
  }

  predicate BothConst(l: Expr, r: Expr, t: Type) {
    IsConst(l, t) && IsConst(r, t)
  }

  /** Constants go to the right. */
  function Commuted(op: Operator, t: Type, l: Expr, r: Expr): Expr {
    if l.Cnst? && !r.Cnst? then Binary(op, t, r, l) else Binary(op, t, l, r)
  }

  function ConstOf(o: Option, t: Type, e: Expr): Expr {
    if o.Some? then Cnst(t, o.value) else e
  }

  // ----- Simplification -----

  /** Whether two constants may be folded. */
  predicate MayFold(op: Operator, l: Expr, r: Expr, needconst: bool) {
    l.Cnst? && r.Cnst? && (
      if !op.Shifts() then Folds(op, l.v, r.v, needconst)
      else 0 <= r.v < 32 && Folds(MUL, l.v, Wrap(I, Power2(r.v)), needconst))
  }

  function Shift(op: Operator, t: Type, l: Expr, r: Expr, fits: bool): Expr
    requires op.Shifts()
  {
    if IsValue(r, I, 0) then l
    else if !(IsConst(l, t) && IsConst(r, I) && 0 <= r.v < 32) then Binary(op, t, l, r)
    else if op.LSH? then
      if t.U? || fits then Cnst(t, Wrap(t, l.v * Power2(r.v))) else Binary(op, t, l, r)
    else
      var n := l.v / Power2(r.v);
      Cnst(t, if t.I? && l.v < 0 then SetHighBits(n, 32 - r.v) else n)
  }

  /** The number x with all bits from position k on set. */
  function SetHighBits(x: int, k: nat): int {
    x % Power2(k) - Power2(k)
  }

  function Bitwise(op: Operator, l: Expr, r: Expr, needconst: bool): Expr
    requires op.Bitwise()
  {
    if BothConst(l, r, U) && InRange(U, l.v) && InRange(U, r.v) then
      ConstOf(Apply(op, U, l.v, r.v), U, Binary(op, U, l, r))
    else BitwiseByConst(op, Commuted(op, U, l, r), needconst)
  }

  /** A bitwise operation whose constant operand, if it has one, is on the right. */
  function BitwiseByConst(op: Operator, c: Expr, needconst: bool): Expr
    requires c.Binary?
  {
    if op.BAND? && IsValue(c.r, U, 0xffff_ffff) then c.l
    else if op.BAND? && IsValue(c.r, U, 0) then Right(Root(c.l, needconst), Cnst(U, 0))
    else if !op.BAND? && IsValue(c.r, U, 0) then c.l
    else c
  }

  /** Division with constant operands. */
  function FoldDivision(op: Operator, t: Type, l: Expr, r: Expr, fits: bool): Expr
    requires op.DIV? || op.MOD?
  {
    if BothConst(l, r, t) && InRange(t, l.v) && InRange(t, r.v) && (t.I? ==> fits) then
      ConstOf(Apply(op, t, l.v, r.v), t, Binary(op, t, l, r))
    else Binary(op, t, l, r)
  }

  function Divide(op: Operator, t: Type, l: Expr, r: Expr, fits: bool, needconst: bool): Expr
    requires op.DIV? || op.MOD?
  {
    if op.DIV? && IsValue(r, t, 1) then l
    else if IsValue(r, t, 0) then Binary(op, t, l, r)
    else if op.MOD? && t.I? && IsValue(r, I, 1) then Right(Root(l, needconst), Cnst(I, 0))
    else if t.U? && IsConst(r, U) && r.v > 1 && Log2(r.v) != 0 then
      if op.DIV? then Shift(RSH, U, l, Cnst(I, Log2(r.v)), true)
      else Bitwise(BAND, l, Cnst(U, r.v - 1), needconst)
    else FoldDivision(op, t, l, r, fits)
  }

  /** Addition and subtraction. */
  function Sum(op: Operator, t: Type, l: Expr, r: Expr, fits: bool): Expr
    requires op.ADD? || op.SUB?
  {
    if BothConst(l, r, t) && (t.I? ==> fits) then Cnst(t, Wrap(t, if op.ADD? then l.v + r.v else l.v - r.v))
    else if op.ADD? then Commuted(op, t, l, r)
    else Binary(op, t, l, r)
  }

  /** Multiplication; constants go to the left. */
  function Product(t: Type, l: Expr, r: Expr, needconst: bool): Expr {
    if r.Cnst? && !l.Cnst? then Multiple(t, r, l, needconst)
    else if l.Cnst? then Multiple(t, l, r, needconst)
    else Binary(MUL, t, l, r)
  }

  /** A constant times r. */
  function Multiple(t: Type, c: Expr, r: Expr, needconst: bool): Expr
    requires c.Cnst?
    decreases r
  {
    if t.I? && IsConst(c, I) && IsSum(r) then
      var x, y := Multiple(I, c, r.l, needconst), Multiple(I, c, r.r, needconst);
      Sum(r.op, I, x, y, MayFold(r.op, x, y, needconst))
    else FoldMultiple(t, c, r, MayFold(MUL, c, r, needconst),
      MayFold(LSH, r, Cnst(I, if c.v < 0 then 0 else Log2(c.v)), needconst))
  }

  function FoldMultiple(t: Type, c: Expr, r: Expr, fits: bool, shiftFits: bool): Expr
    requires c.Cnst?
  {
    if IsConst(c, t) && c.v > 0 && Log2(c.v) != 0 then Shift(LSH, t, r, Cnst(I, Log2(c.v)), shiftFits)
    else if BothConst(c, r, t) && (t.I? ==> fits) then Cnst(t, Wrap(t, c.v * r.v))
    else Binary(MUL, t, c, r)
  }

  /** x + c or x - c. */
  predicate IsSum(r: Expr) {
    r.Binary? && (r.op.ADD? || r.op.SUB?) && r.t.I? && IsConst(r.r, I)
  }

  /** Comparisons. Unsigned comparisons with 0 are decided, or become tests for equality. */
  function Comparison(op: Operator, t: Type, l: Expr, r: Expr, needconst: bool): Expr
    requires op.Compares()
  {
    var equality := op.EQ? || op.NE?;
    if t.U? && (op.GE? || op.LT?) && IsValue(r, U, 0) then Right(Root(l, needconst), Cnst(I, Truth(op.GE?)))
    else if t.U? && (op.LE? || op.GT?) && IsValue(l, U, 0) then Right(Root(r, needconst), Cnst(I, Truth(op.LE?)))
    else if BothConst(l, r, t) && InRange(t, l.v) && InRange(t, r.v) then
      ConstOf(Apply(op, t, l.v, r.v), I, Binary(op, t, l, r))
    else if equality then Commuted(op, I, l, r)
    else if t.U? && op.GE? && IsValue(l, U, 0) then Binary(EQ, I, r, l)
    else if t.U? && op.LT? && IsValue(l, U, 0) then Binary(NE, I, r, l)
    else if t.U? && op.GT? && IsValue(r, U, 0) then Binary(NE, I, l, r)
    else if t.U? && op.LE? && IsValue(r, U, 0) then Binary(EQ, I, l, r)
    else Binary(op, t, l, r)
  }

  function Simplify(op: Operator, t: Type, l: Expr, r: Expr, needconst: bool): Expr {
    var fits := MayFold(op, l, r, needconst);
    match op
    case ADD => Sum(op, t, l, r, fits)
    case SUB => Sum(op, t, l, r, fits)
    case MUL => Product(t, l, r, needconst)
    case DIV => Divide(op, t, l, r, fits, needconst)
    case MOD => Divide(op, t, l, r, fits, needconst)
    case LSH => Shift(op, t, l, r, fits)
    case RSH => Shift(op, t, l, r, fits)
    case BAND => Bitwise(op, l, r, needconst)
    case BOR => Bitwise(op, l, r, needconst)
    case BXOR => Bitwise(op, l, r, needconst)
    case _ => Comparison(op, t, l, r, needconst)
  }

  function Negation(l: Expr, needconst: bool): Expr {
    if IsConst(l, I) && (needconst || l.v != INT_MIN) then Cnst(I, Wrap(I, -l.v))
    else if l.Neg? then l.l
    else Neg(l)
  }

  function Complement(t: Type, l: Expr): Expr {
    if IsConst(l, t) then Cnst(t, Flip(t, l.v)) else if l.Com? then l.l else Com(t, l)
  }

  /** Conversion between int and unsigned. */
  function Convert(t: Type, l: Expr, needconst: bool): Expr {
    if l.Cnst? && l.t != t && (t.U? || needconst || l.v <= INT_MAX) then Cnst(t, Wrap(t, l.v)) else Cvt(t, l)
  }

  function Inverse(l: Expr): Expr {
    if IsConst(l, I) then Cnst(I, Truth(l.v == 0)) else Not(l)
  }

  /** The operand whose value a tree has. */
  function RightKid(e: Expr): Expr {
    if e.Right? then (if e.r.Nothing? then RightKid(e.l) else RightKid(e.r)) else e
  }

  predicate IsLogical(e: Expr) {
    e.And? || e.Or? || e.Not? || (e.Binary? && e.op.Compares())
  }

  /** A tree as a condition. */
  function Condition(e: Expr, needconst: bool): Expr {
    if IsLogical(RightKid(e)) then e else Comparison(NE, TypeOf(e), e, Cnst(TypeOf(e), 0), needconst)
  }

  function Conjunction(l: Expr, r: Expr, needconst: bool): Expr {
    if IsConst(l, I) then (if l.v != 0 then Condition(r, needconst) else l) else And(l, r)
  }

  function Disjunction(l: Expr, r: Expr, needconst: bool): Expr {
    if IsConst(l, I) then (if l.v != 0 then Cnst(I, 1) else Condition(r, needconst)) else Or(l, r)
  }
}
