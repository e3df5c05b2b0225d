/** Simplification keeps the meaning of trees. */
module FoldingMeaning {
  import opened Bits
  import opened Folding
  import opened Simplifier

  /** Whenever e has a value, f has the same, and the same effects; and f is as well typed as e. */
  ghost predicate Replaces(e: Expr, f: Expr, w: World, h: Trace) {
    && (Eval(e, w, h).Value? ==> Eval(f, w, h) == Eval(e, w, h))
    && WellTyped(f) && !f.Nothing? && TypeOf(f) == TypeOf(e)
  }

  // ----- Words -----

  lemma WrapId(t: Type, x: int)
    requires InRange(t, x)
    ensures Wrap(t, x) == x
  {
  }

  /** How many times the modulus wrapping takes away. */
  function Wraps(t: Type, x: int): int {
    (x - Wrap(t, x)) / 0x1_0000_0000
  }

  lemma WrapBy(t: Type, x: int)
    ensures Wrap(t, x) == x - 0x1_0000_0000 * Wraps(t, x)
  {
  }

  lemma WrapSame(t: Type, x: int, y: int, k: int)
    requires x == y + 0x1_0000_0000 * k
    ensures Wrap(t, x) == Wrap(t, y)
  {
    assert x % 0x1_0000_0000 == y % 0x1_0000_0000;
  }

  lemma WrapSum(t: Type, x: int, y: int)
    ensures Wrap(t, Wrap(t, x) + Wrap(t, y)) == Wrap(t, x + y)
    ensures Wrap(t, Wrap(t, x) - Wrap(t, y)) == Wrap(t, x - y)
  {
    WrapBy(t, x);
    WrapBy(t, y);
    WrapSame(t, Wrap(t, x) + Wrap(t, y), x + y, -Wraps(t, x) - Wraps(t, y));
    WrapSame(t, Wrap(t, x) - Wrap(t, y), x - y, Wraps(t, y) - Wraps(t, x));
  }

  lemma WrapProduct(t: Type, c: int, x: int)
    ensures Wrap(t, c * Wrap(t, x)) == Wrap(t, c * x)
  {
    WrapBy(t, x);
    assert c * Wrap(t, x) == c * x + 0x1_0000_0000 * (-c * Wraps(t, x));
    WrapSame(t, c * Wrap(t, x), c * x, -c * Wraps(t, x));
  }

  // ----- Values -----

  /** A value is a word of the tree's type. */
  lemma {:induction false} ValueInRange(e: Expr, w: World, h: Trace)
    requires WellTyped(e) && Eval(e, w, h).Value?
    ensures InRange(TypeOf(e), Eval(e, w, h).v)
    decreases e
  {
    match e
    case Binary(op, t, l, r) =>
      var a := Eval(l, w, h);
      var b := Eval(r, w, a.h);
      ComputedInRange(op, t, a.v, b.v, b.h);
    case Com(_, l) => ValueInRange(l, w, h);
    case Right(l, r) =>
      if r.Nothing? {
        ValueInRange(l, w, h);
      } else {
        ValueInRange(r, w, Eval(l, w, h).h);
      }
    case _ =>
  }

  lemma ComputedInRange(op: Operator, t: Type, x: int, y: int, h: Trace)
    requires Computed(op, t, x, y, h).Value?
    ensures InRange(if op.Compares() then I else t, Computed(op, t, x, y, h).v)
  {
    ApplyInRange(op, t, Wrap(t, x), if op.Shifts() then y else Wrap(t, y));
  }

  lemma ApplyInRange(op: Operator, t: Type, x: int, y: int)
    requires InRange(t, x) && (!op.Shifts() ==> InRange(t, y)) && (op.Bitwise() ==> t.U?)
    ensures Apply(op, t, x, y).Some? ==> InRange(if op.Compares() then I else t, Apply(op, t, x, y).value)
  {
    if op.DIV? || op.MOD? {
      DivisionInRange(op, t, x, y);
    } else if op.Shifts() {
      ShiftsInRange(op, t, x, y);
    } else if op.Bitwise() {
      BitwiseInRange(op, x, y);
    }
  }

  lemma DivisionInRange(op: Operator, t: Type, x: int, y: int)
    requires InRange(t, x) && InRange(t, y) && (op.DIV? || op.MOD?)
    ensures Apply(op, t, x, y).Some? ==> InRange(t, Apply(op, t, x, y).value)
  {
    if y != 0 {
      RemainderInRange(t, x, y);
    }
  }

  lemma ShiftsInRange(op: Operator, t: Type, x: int, y: int)
    requires InRange(t, x) && op.Shifts()
    ensures Apply(op, t, x, y).Some? ==> InRange(t, Apply(op, t, x, y).value)
  {
    if op.RSH? && 0 <= y < 32 {
      ShiftInRange(t, x, Power2(y));
    }
  }

  lemma BitwiseInRange(op: Operator, x: int, y: int)
    requires InRange(U, x) && InRange(U, y) && op.Bitwise()
    ensures Apply(op, U, x, y).Some? ==> InRange(U, Apply(op, U, x, y).value)
  {
    Power32();
  }

  lemma RemainderInRange(t: Type, x: int, y: int)
    requires InRange(t, x) && InRange(t, y) && y != 0
    ensures InRange(t, x - Quotient(x, y) * y)
  {
    var q, r := Abs(x) / Abs(y), Abs(x) % Abs(y);
    assert Abs(x) == Abs(y) * q + r;
    assert x - Quotient(x, y) * y == if x < 0 then -r else r;
  }

  lemma ShiftInRange(t: Type, x: int, p: nat)
    requires InRange(t, x) && 0 < p
    ensures InRange(t, x / p) && (x < 0 ==> x / p < 0)
  {
    QuotientBound(x, p, x / p, x % p);
  }

  lemma QuotientBound(x: int, p: nat, q: int, r: int)
    requires 0 < p && x == p * q + r && 0 <= r < p
    ensures if x >= 0 then 0 <= q <= x else x <= q < 0
  {
    ProductSign(p, q);
    if x < 0 {
      ProductLow(p, q, x);
    }
  }

  lemma ProductSign(p: nat, q: int)
    requires 0 < p
    ensures q <= -1 ==> p * q <= -(p as int)
    ensures q >= 0 ==> p * q >= q
  {
  }

  lemma ProductLow(p: nat, q: int, x: int)
    requires 0 < p && x <= 0
    ensures q <= x - 1 ==> p * q <= x - p
  {
    if q <= x - 1 {
      var d := x - 1 - q;
      assert p * q == p * x - p - p * d;
      assert p * d >= 0 && p * x <= x;
    }
  }

  // ----- Commuted operands -----

  lemma {:induction false} CombineCommutes(op: Bits.Bitwise, x: nat, y: nat, n: nat)
    ensures Combine(op, x, y, n) == Combine(op, y, x, n)
  {
    if n > 0 {
      CombineCommutes(op, x / 2, y / 2, n - 1);
    }
  }

  predicate Commutes(op: Operator) {
    op.ADD? || op.MUL? || op.Bitwise() || op.EQ? || op.NE?
  }

  lemma BitwiseCommutes(op: Operator, x: int, y: int, h: Trace)
    requires op.Bitwise()
    ensures Computed(op, U, x, y, h) == Computed(op, U, y, x, h)
  {
    var a, b := Wrap(U, x), Wrap(U, y);
    if op.BAND? {
      CombineCommutes(Bits.AND, a, b, 32);
    } else if op.BOR? {
      CombineCommutes(Bits.OR, a, b, 32);
    } else {
      CombineCommutes(Bits.XOR, a, b, 32);
    }
    assert Apply(op, U, a, b) == Apply(op, U, b, a);
  }

  lemma ComputedCommutes(op: Operator, t: Type, x: int, y: int, h: Trace)
    requires Commutes(op)
    ensures Computed(op, t, x, y, h) == Computed(op, t, y, x, h)
  {
    if op.Bitwise() {
      if t.U? {
        BitwiseCommutes(op, x, y, h);
      }
    } else {
      var a, b := Wrap(t, x), Wrap(t, y);
      assert Times(a, b) == Times(b, a);
      assert Apply(op, t, a, b) == Apply(op, t, b, a);
    }
  }

  /** Equality may be tested on the words as values of either type. */
  lemma EqualityOfWords(op: Operator, t: Type, x: int, y: int, h: Trace)
    requires op.EQ? || op.NE?
    ensures Computed(op, t, x, y, h) == Computed(op, I, x, y, h)
  {
  }

  lemma CommutedReplaces(op: Operator, t: Type, l: Expr, r: Expr, w: World, h: Trace)
    requires Commutes(op) && WellTyped(Binary(op, t, l, r))
    ensures Replaces(Binary(op, t, l, r), Commuted(op, t, l, r), w, h)
    ensures (op.EQ? || op.NE?) ==> Replaces(Binary(op, t, l, r), Commuted(op, I, l, r), w, h)
  {
    CommutedEval(op, t, l, r, w, h);
    if op.EQ? || op.NE? {
      SameWords(op, t, l, r, w, h);
      CommutedEval(op, I, l, r, w, h);
    }
  }

  lemma {:induction false} CommutedEval(op: Operator, t: Type, l: Expr, r: Expr, w: World, h: Trace)
    requires Commutes(op)
    ensures Eval(Commuted(op, t, l, r), w, h) == Eval(Binary(op, t, l, r), w, h)
  {
    var b := Eval(r, w, h);
    if l.Cnst? && b.Value? {
      ComputedCommutes(op, t, Wrap(l.t, l.v), b.v, b.h);
    }
  }

  lemma {:induction false} SameWords(op: Operator, t: Type, l: Expr, r: Expr, w: World, h: Trace)
    requires op.EQ? || op.NE?
    ensures Eval(Binary(op, t, l, r), w, h) == Eval(Binary(op, I, l, r), w, h)
  {
    var a := Eval(l, w, h);
    if a.Value? && Eval(r, w, a.h).Value? {
      EqualityOfWords(op, t, a.v, Eval(r, w, a.h).v, Eval(r, w, a.h).h);
    }
  }

  // ----- The cases -----

  lemma ComputedSum(t: Type, x: int, y: int, h: Trace)
    requires InRange(t, x) && InRange(t, y)
    ensures Computed(ADD, t, x, y, h) == Value(Wrap(t, x + y), h)
    ensures Computed(SUB, t, x, y, h) == Value(Wrap(t, x - y), h)
  {
    WrapId(t, x);
    WrapId(t, y);
  }

  lemma BothConstEval(op: Operator, t: Type, l: Expr, r: Expr, w: World, h: Trace)
    requires l.Cnst? && r.Cnst? && WellTyped(l) && WellTyped(r)
    ensures Eval(Binary(op, t, l, r), w, h) == Computed(op, t, l.v, r.v, h)
  {
    WrapId(l.t, l.v);
    WrapId(r.t, r.v);
    assert Eval(l, w, h) == Value(l.v, h) && Eval(r, w, h) == Value(r.v, h);
  }

  lemma ConstReplaces(e: Expr, t: Type, v: int, w: World, h: Trace)
    requires TypeOf(e) == t && InRange(t, v) && (Eval(e, w, h).Value? ==> Eval(e, w, h) == Value(v, h))
    ensures Replaces(e, Cnst(t, v), w, h)
  {
    WrapId(t, v);
  }

  lemma SumReplaces(op: Operator, t: Type, l: Expr, r: Expr, fits: bool, w: World, h: Trace)
    requires (op.ADD? || op.SUB?) && WellTyped(Binary(op, t, l, r))
    ensures Replaces(Binary(op, t, l, r), Sum(op, t, l, r, fits), w, h)
  {
    if BothConst(l, r, t) && (t.I? ==> fits) {
      BothConstEval(op, t, l, r, w, h);
      ComputedSum(t, l.v, r.v, h);
      ConstReplaces(Binary(op, t, l, r), t, Wrap(t, if op.ADD? then l.v + r.v else l.v - r.v), w, h);
    } else if op.ADD? {
      CommutedReplaces(ADD, t, l, r, w, h);
    }
  }

  /** Setting the high bits of a number that is negative already changes nothing. */
  lemma HighBitsSet(x: int, k: nat, n: nat)
    requires x < 0 && InRange(I, x) && n + k == 32
    ensures SetHighBits(x / Power2(n), k) == x / Power2(n)
  {
    var p, m := Power2(n), Power2(k);
    ShiftInRange(I, x, p);
    PowersMultiply(n, k);
    Power32();
    DivMod(x, p);
    LowerBound(x, p, m, x / p, x % p);
    NegativeMod(x / p, m);
  }

  lemma DivMod(x: int, p: nat)
    requires 0 < p
    ensures x == p * (x / p) + x % p && 0 <= x % p < p
  {
  }

  lemma LowerBound(x: int, p: nat, m: nat, q: int, r: int)
    requires 0 < p && p * m == 0x1_0000_0000 && x >= -0x8000_0000 && x == p * q + r && r < p
    ensures q >= -(m as int)
  {
    ProductSign(p, q + m);
    assert p * (q + m) == p * q + p * m;
  }

  lemma NegativeMod(q: int, m: nat)
    requires 0 < m && -(m as int) <= q < 0
    ensures q % m == q + m
  {
    ModUnique(q + m, m, 0, q + m);
    ShiftedMod(q, m);
  }

  lemma ShiftedMod(q: int, m: nat)
    requires 0 < m
    ensures (q + m) % m == q % m
  {
    var d := (q + m) / m - q / m;
    assert q + m == m * ((q + m) / m) + (q + m) % m && q == m * (q / m) + q % m;
    assert m == m * d + ((q + m) % m - q % m);
    assert m * d == m * ((q + m) / m) - m * (q / m);
    ProductSign(m, d);
    ProductSign(m, d - 2);
    assert m * (d - 2) == m * d - 2 * m;
    assert d == 1;
  }

  lemma {:induction false} PowersMultiply(m: nat, n: nat)
    ensures Power2(m) * Power2(n) == Power2(m + n)
  {
    if m > 0 {
      PowersMultiply(m - 1, n);
      DoubleFactor(Power2(m - 1), Power2(n));
    }
  }

  lemma DoubleFactor(a: nat, b: nat)
    ensures (2 * a) * b == 2 * (a * b)
  {
  }

  lemma ComputedShift(t: Type, x: int, n: int, h: Trace)
    requires InRange(t, x)
    ensures 0 <= n < 32 ==> Computed(LSH, t, x, n, h) == Value(Wrap(t, x * Power2(n)), h)
    ensures 0 <= n < 32 ==> Computed(RSH, t, x, n, h) == Value(x / Power2(n), h)
  {
    WrapId(t, x);
  }

  lemma ShiftConst(op: Operator, t: Type, l: Expr, r: Expr, w: World, h: Trace)
    requires op.Shifts() && WellTyped(Binary(op, t, l, r)) && IsConst(l, t) && IsConst(r, I) && 0 <= r.v < 32
    ensures Replaces(Binary(op, t, l, r), Shift(op, t, l, r, true), w, h)
  {
    if op.LSH? {
      LeftShiftConst(t, l, r, w, h);
    } else {
      RightShiftConst(t, l, r, w, h);
    }
  }

  lemma LeftShiftConst(t: Type, l: Expr, r: Expr, w: World, h: Trace)
    requires WellTyped(Binary(LSH, t, l, r)) && IsConst(l, t) && IsConst(r, I) && 0 <= r.v < 32
    ensures Replaces(Binary(LSH, t, l, r), Shift(LSH, t, l, r, true), w, h)
  {
    BothConstEval(LSH, t, l, r, w, h);
    ComputedShift(t, l.v, r.v, h);
    ConstReplaces(Binary(LSH, t, l, r), t, Wrap(t, l.v * Power2(r.v)), w, h);
  }

  lemma RightShiftConst(t: Type, l: Expr, r: Expr, w: World, h: Trace)
    requires WellTyped(Binary(RSH, t, l, r)) && IsConst(l, t) && IsConst(r, I) && 0 <= r.v < 32
    ensures Replaces(Binary(RSH, t, l, r), Shift(RSH, t, l, r, true), w, h)
  {
    BothConstEval(RSH, t, l, r, w, h);
    ComputedShift(t, l.v, r.v, h);
    RightShiftedConst(t, l, r);
    ConstReplaces(Binary(RSH, t, l, r), t, l.v / Power2(r.v), w, h);
  }

  lemma RightShiftedConst(t: Type, l: Expr, r: Expr)
    requires IsConst(l, t) && InRange(t, l.v) && IsConst(r, I) && 0 <= r.v < 32
    ensures InRange(t, l.v / Power2(r.v)) && Shift(RSH, t, l, r, true) == Cnst(t, l.v / Power2(r.v))
  {
    ShiftInRange(t, l.v, Power2(r.v));
    if r.v == 0 {
      assert Power2(0) == 1;
    } else if t.I? && l.v < 0 {
      HighBitsSet(l.v, 32 - r.v, r.v);
    }
  }

  lemma ShiftReplaces(op: Operator, t: Type, l: Expr, r: Expr, fits: bool, w: World, h: Trace)
    requires op.Shifts() && WellTyped(Binary(op, t, l, r))
    ensures Replaces(Binary(op, t, l, r), Shift(op, t, l, r, fits), w, h)
  {
    if IsValue(r, I, 0) {
      var a := Eval(l, w, h);
      if a.Value? {
        ValueInRange(l, w, h);
        ComputedShift(t, a.v, 0, a.h);
        WrapId(t, a.v);
      }
    } else if IsConst(l, t) && IsConst(r, I) && 0 <= r.v < 32 {
      ShiftConst(op, t, l, r, w, h);
    }
  }

  lemma ComputedBitwise(op: Operator, x: int, y: int, h: Trace)
    requires op.Bitwise() && InRange(U, x) && InRange(U, y)
    ensures Computed(op, U, x, y, h) ==
      Value(Combine(if op.BAND? then Bits.AND else if op.BOR? then Bits.OR else Bits.XOR, x, y, 32), h)
    ensures y == 0 ==> Computed(op, U, x, y, h) == Value(if op.BAND? then 0 else x, h)
    ensures op.BAND? && y == 0xffff_ffff ==> Computed(op, U, x, y, h) == Value(x, h)
  {
    WrapId(U, x);
    WrapId(U, y);
    Power32();
    AndMask(x, 32, 32);
    CombineZero(Bits.AND, x, 32);
    CombineZero(Bits.OR, x, 32);
    CombineZero(Bits.XOR, x, 32);
  }

  lemma BitwiseReplaces(op: Operator, l: Expr, r: Expr, needconst: bool, w: World, h: Trace)
    requires op.Bitwise() && WellTyped(Binary(op, U, l, r))
    ensures Replaces(Binary(op, U, l, r), Simplifier.Bitwise(op, l, r, needconst), w, h)
  {
    if BothConst(l, r, U) {
      BothConstEval(op, U, l, r, w, h);
      ComputedBitwise(op, l.v, r.v, h);
      Power32();
      WrapId(U, l.v);
      WrapId(U, r.v);
      ConstReplaces(Binary(op, U, l, r), U, Computed(op, U, l.v, r.v, h).v, w, h);
    } else {
      CommutedReplaces(op, U, l, r, w, h);
      ByConstReplaces(op, Commuted(op, U, l, r), needconst, w, h);
    }
  }

  /** A constant result, and the effects of an operand that is otherwise dropped. */
  lemma RootThenConst(e: Expr, l: Expr, t: Type, v: int, needconst: bool, w: World, h: Trace)
    requires WellTyped(l) && TypeOf(e) == t && InRange(t, v)
    requires Eval(e, w, h).Value? ==> Eval(l, w, h).Value? && Eval(e, w, h) == Value(v, Eval(l, w, h).h)
    ensures Replaces(e, Right(Root(l, needconst), Cnst(t, v)), w, h)
  {
    RootKeepsEffects(l, needconst, w, h);
    RootWellTyped(l, needconst);
    ConstAfter(Root(l, needconst), t, v, w, h);
  }

  lemma ConstAfter(l: Expr, t: Type, v: int, w: World, h: Trace)
    requires WellTyped(l) && InRange(t, v)
    ensures WellTyped(Right(l, Cnst(t, v))) && TypeOf(Right(l, Cnst(t, v))) == t
    ensures Eval(l, w, h).Value? ==> Eval(Right(l, Cnst(t, v)), w, h) == Value(v, Eval(l, w, h).h)
  {
    WrapId(t, v);
    assert WellTyped(Cnst(t, v));
  }

  lemma ByConstReplaces(op: Operator, c: Expr, needconst: bool, w: World, h: Trace)
    requires op.Bitwise() && c.Binary? && c.op == op && c.t == U && WellTyped(c)
    ensures Replaces(c, Simplifier.BitwiseByConst(op, c, needconst), w, h)
  {
    if c.r.Cnst? {
      var a := Eval(c.l, w, h);
      if a.Value? {
        ValueInRange(c.l, w, h);
        WrapId(U, c.r.v);
        assert Eval(c, w, h) == Computed(op, U, a.v, c.r.v, a.h);
        ComputedBitwise(op, a.v, c.r.v, a.h);
      }
      if op.BAND? && c.r.v == 0 {
        RootThenConst(c, c.l, U, 0, needconst, w, h);
      }
    }
  }

  lemma {:induction false} RootWellTyped(e: Expr, needconst: bool)
    requires WellTyped(e)
    ensures WellTyped(Root(e, needconst))
    decreases e
  {
    match e
    case Binary(_, _, l, r) =>
      RootWellTyped(l, needconst);
      RootWellTyped(r, needconst);
    case And(l, r) =>
      RootWellTyped(l, needconst);
      RootWellTyped(r, needconst);
    case Or(l, r) =>
      RootWellTyped(l, needconst);
      RootWellTyped(r, needconst);
    case Right(l, r) =>
      RootWellTyped(l, needconst);
      RootWellTyped(r, needconst);
    case Load(_, l) => RootWellTyped(l, needconst);
    case Neg(l) => RootWellTyped(l, needconst);
    case Com(_, l) => RootWellTyped(l, needconst);
    case Cvt(_, l) => RootWellTyped(l, needconst);
    case Not(l) => RootWellTyped(l, needconst);
    case _ =>
  }

  // ----- Division -----

  lemma ComputedByOne(t: Type, x: int, h: Trace)
    requires InRange(t, x)
    ensures Computed(DIV, t, x, 1, h) == Value(x, h) && Computed(MOD, t, x, 1, h) == Value(0, h)
  {
    WrapId(t, x);
    WrapId(t, 1);
    assert Quotient(x, 1) == x;
  }

  lemma ComputedDivision(x: int, y: int, h: Trace)
    requires InRange(U, x) && InRange(U, y) && y > 0
    ensures Computed(DIV, U, x, y, h) == Value(x / y, h) && Computed(MOD, U, x, y, h) == Value(x % y, h)
  {
    WrapId(U, x);
    WrapId(U, y);
    assert Quotient(x, y) == x / y;
    DivMod(x, y);
    ShiftInRange(U, x, y);
    assert Times(x / y, y) == y * (x / y);
  }

  lemma ComputedProduct(t: Type, x: int, y: int, h: Trace)
    requires InRange(t, x) && InRange(t, y)
    ensures Computed(MUL, t, x, y, h) == Value(Wrap(t, x * y), h)
  {
    WrapId(t, x);
    WrapId(t, y);
  }

  /** Division, remainder and product by a power of two, on words. */
  lemma ByPower(t: Type, x: int, p: int, n: nat, h: Trace)
    requires InRange(t, x) && InRange(t, p) && p == Power2(n) && n < 32
    ensures t.U? ==> Computed(DIV, U, x, p, h) == Computed(RSH, U, x, n, h)
    ensures t.U? ==> Computed(MOD, U, x, p, h) == Computed(BAND, U, x, p - 1, h)
    ensures Computed(MUL, t, p, x, h) == Computed(LSH, t, x, n, h)
  {
    ComputedShift(t, x, n, h);
    ComputedProduct(t, p, x, h);
    if t.U? {
      ComputedDivision(x, p, h);
      ComputedBitwise(BAND, x, p - 1, h);
      Power32();
      AndMask(x, n, 32);
    }
  }

  /** Two operations on the same first operand, and constants. */
  lemma SameFirst(op: Operator, op': Operator, t: Type, l: Expr, c: Expr, c': Expr, w: World, h: Trace)
    requires WellTyped(l) && WellTyped(c) && WellTyped(c') && c.Cnst? && c'.Cnst?
    requires Eval(l, w, h).Value? ==>
      Computed(op, t, Eval(l, w, h).v, c.v, Eval(l, w, h).h) == Computed(op', t, Eval(l, w, h).v, c'.v, Eval(l, w, h).h)
    ensures Eval(Binary(op, t, l, c), w, h) == Eval(Binary(op', t, l, c'), w, h)
  {
    WrapId(c.t, c.v);
    WrapId(c'.t, c'.v);
  }

  /** Dividing an unsigned number by a power of two. */
  lemma PowerQuotient(l: Expr, r: Expr, w: World, h: Trace)
    requires WellTyped(Binary(DIV, U, l, r)) && IsConst(r, U) && r.v > 1 && Log2(r.v) != 0
    ensures Replaces(Binary(DIV, U, l, r), Shift(RSH, U, l, Cnst(I, Log2(r.v)), true), w, h)
  {
    var n := Log2(r.v);
    Power32();
    Log2IsLog(r.v);
    ShiftReplaces(RSH, U, l, Cnst(I, n), true, w, h);
    if Eval(l, w, h).Value? {
      ValueInRange(l, w, h);
      ByPower(U, Eval(l, w, h).v, r.v, n, Eval(l, w, h).h);
    }
    SameFirst(DIV, RSH, U, l, r, Cnst(I, n), w, h);
  }

  /** The remainder of an unsigned number by a power of two. */
  lemma PowerRemainder(l: Expr, r: Expr, needconst: bool, w: World, h: Trace)
    requires WellTyped(Binary(MOD, U, l, r)) && IsConst(r, U) && r.v > 1 && Log2(r.v) != 0
    ensures Replaces(Binary(MOD, U, l, r), Simplifier.Bitwise(BAND, l, Cnst(U, r.v - 1), needconst), w, h)
  {
    BitwiseReplaces(BAND, l, Cnst(U, r.v - 1), needconst, w, h);
    RemainderIsMask(l, r, w, h);
  }

  lemma {:induction false} RemainderIsMask(l: Expr, r: Expr, w: World, h: Trace)
    requires WellTyped(Binary(MOD, U, l, r)) && IsConst(r, U) && r.v > 1 && Log2(r.v) != 0
    ensures Eval(Binary(MOD, U, l, r), w, h) == Eval(Binary(BAND, U, l, Cnst(U, r.v - 1)), w, h)
  {
    if Eval(l, w, h).Value? {
      ValueInRange(l, w, h);
      WordMasked(Eval(l, w, h).v, r.v, Eval(l, w, h).h);
    }
    SameFirst(MOD, BAND, U, l, r, Cnst(U, r.v - 1), w, h);
  }

  lemma WordMasked(x: int, p: int, h: Trace)
    requires InRange(U, x) && InRange(U, p) && p > 1 && Log2(p) != 0
    ensures Computed(MOD, U, x, p, h) == Computed(BAND, U, x, p - 1, h)
  {
    Power32();
    Log2IsLog(p);
    ByPower(U, x, p, Log2(p), h);
  }

  lemma FoldDivisionReplaces(op: Operator, t: Type, l: Expr, r: Expr, fits: bool, w: World, h: Trace)
    requires (op.DIV? || op.MOD?) && WellTyped(Binary(op, t, l, r))
    ensures Replaces(Binary(op, t, l, r), FoldDivision(op, t, l, r, fits), w, h)
  {
    if BothConst(l, r, t) && (t.I? ==> fits) {
      BothConstEval(op, t, l, r, w, h);
      WrapId(t, l.v);
      WrapId(t, r.v);
      if Apply(op, t, l.v, r.v).Some? {
        ComputedInRange(op, t, l.v, r.v, h);
        ConstReplaces(Binary(op, t, l, r), t, Apply(op, t, l.v, r.v).value, w, h);
      }
    }
  }

  lemma DivideReplaces(op: Operator, t: Type, l: Expr, r: Expr, fits: bool, needconst: bool, w: World, h: Trace)
    requires (op.DIV? || op.MOD?) && WellTyped(Binary(op, t, l, r))
    ensures Replaces(Binary(op, t, l, r), Divide(op, t, l, r, fits, needconst), w, h)
  {
    if IsValue(r, t, 1) {
      DivideByOne(op, t, l, r, needconst, w, h);
    }
    if t.U? && IsConst(r, U) && r.v > 1 && Log2(r.v) != 0 {
      if op.DIV? {
        PowerQuotient(l, r, w, h);
      } else {
        PowerRemainder(l, r, needconst, w, h);
      }
    }
    FoldDivisionReplaces(op, t, l, r, fits, w, h);
  }

  lemma DivideByOne(op: Operator, t: Type, l: Expr, r: Expr, needconst: bool, w: World, h: Trace)
    requires (op.DIV? || op.MOD?) && WellTyped(Binary(op, t, l, r)) && IsValue(r, t, 1)
    ensures op.DIV? ==> Replaces(Binary(op, t, l, r), l, w, h)
    ensures op.MOD? ==> Replaces(Binary(op, t, l, r), Right(Root(l, needconst), Cnst(t, 0)), w, h)
  {
    var a := Eval(l, w, h);
    if a.Value? {
      ValueInRange(l, w, h);
      WrapId(t, 1);
      ComputedByOne(t, a.v, a.h);
      assert Eval(Binary(op, t, l, r), w, h) == Computed(op, t, a.v, 1, a.h);
    }
    if op.MOD? {
      RootThenConst(Binary(op, t, l, r), l, t, 0, needconst, w, h);
    }
  }

  // ----- Multiplication -----

  lemma Distribute(c: int, x: int, y: int)
    ensures Wrap(I, c * Wrap(I, x + y)) == Wrap(I, Wrap(I, c * x) + Wrap(I, c * y))
    ensures Wrap(I, c * Wrap(I, x - y)) == Wrap(I, Wrap(I, c * x) - Wrap(I, c * y))
  {
    WrapProduct(I, c, x + y);
    WrapProduct(I, c, x - y);
    ScaleSum(c, x, y);
    WrapSum(I, c * x, c * y);
  }

  lemma ScaleSum(c: int, x: int, y: int)
    ensures c * (x + y) == c * x + c * y
    ensures c * (x - y) == c * x - c * y
  {
  }

  lemma FoldMultipleReplaces(t: Type, c: Expr, r: Expr, fits: bool, shiftFits: bool, w: World, h: Trace)
    requires c.Cnst? && WellTyped(Binary(MUL, t, c, r))
    ensures Replaces(Binary(MUL, t, c, r), FoldMultiple(t, c, r, fits, shiftFits), w, h)
  {
    if c.v > 0 && Log2(c.v) != 0 {
      PowerMultiple(t, c, r, shiftFits, w, h);
    } else if BothConst(c, r, t) && (t.I? ==> fits) {
      BothConstEval(MUL, t, c, r, w, h);
      ComputedProduct(t, c.v, r.v, h);
      ConstReplaces(Binary(MUL, t, c, r), t, Wrap(t, c.v * r.v), w, h);
    }
  }

  lemma {:induction false} PowerMultiple(t: Type, c: Expr, r: Expr, fits: bool, w: World, h: Trace)
    requires c.Cnst? && WellTyped(Binary(MUL, t, c, r)) && c.v > 0 && Log2(c.v) != 0
    ensures Replaces(Binary(MUL, t, c, r), Shift(LSH, t, r, Cnst(I, Log2(c.v)), fits), w, h)
  {
    var n := Log2(c.v);
    Power32();
    Log2IsLog(c.v);
    ShiftReplaces(LSH, t, r, Cnst(I, n), fits, w, h);
    ConstMovesBack(t, c, r, n, w, h);
  }

  lemma ConstMovesBack(t: Type, c: Expr, r: Expr, n: nat, w: World, h: Trace)
    requires c.Cnst? && WellTyped(Binary(MUL, t, c, r)) && n < 32 && c.v == Power2(n)
    ensures Eval(Binary(MUL, t, c, r), w, h) == Eval(Binary(LSH, t, r, Cnst(I, n)), w, h)
  {
    WrapId(t, c.v);
    WrapId(I, n);
    assert Eval(c, w, h) == Value(c.v, h);
    var b := Eval(r, w, h);
    if b.Value? {
      ValueInRange(r, w, h);
      ByPower(t, b.v, c.v, n, b.h);
    }
  }

  lemma {:induction false} MultipleReplaces(t: Type, c: Expr, r: Expr, needconst: bool, w: World, h: Trace)
    requires c.Cnst? && WellTyped(Binary(MUL, t, c, r))
    ensures Replaces(Binary(MUL, t, c, r), Multiple(t, c, r, needconst), w, h)
    decreases r
  {
    if t.I? && IsSum(r) {
      var x, y := Multiple(I, c, r.l, needconst), Multiple(I, c, r.r, needconst);
      var a := Eval(r.l, w, h);
      var h1 := if a.Value? then a.h else h;
      MultipleReplaces(I, c, r.l, needconst, w, h);
      MultipleReplaces(I, c, r.r, needconst, w, h1);
      SumReplaces(r.op, I, x, y, MayFold(r.op, x, y, needconst), w, h);
      if a.Value? {
        DistributedSum(c, r, x, y, w, h);
      }
    } else {
      FoldMultipleReplaces(t, c, r, MayFold(MUL, c, r, needconst),
        MayFold(LSH, r, Cnst(I, if c.v < 0 then 0 else Log2(c.v)), needconst), w, h);
    }
  }

  lemma SumOfProducts(op: Operator, c: int, x: int, y: int, h: Trace)
    requires (op.ADD? || op.SUB?) && InRange(I, c) && InRange(I, x) && InRange(I, y)
    ensures Computed(op, I, x, y, h) == Value(SumWord(op, x, y), h)
    ensures Computed(op, I, Wrap(I, c * x), Wrap(I, c * y), h) == Value(Wrap(I, c * SumWord(op, x, y)), h)
  {
    ComputedSum(I, x, y, h);
    ComputedSum(I, Wrap(I, c * x), Wrap(I, c * y), h);
    Distribute(c, x, y);
  }

  function SumWord(op: Operator, x: int, y: int): int {
    Wrap(I, if op.ADD? then x + y else x - y)
  }

  lemma PairValue(op: Operator, x: Expr, y: Expr, vx: int, vy: int, w: World, h: Trace, h1: Trace)
    requires Eval(x, w, h) == Value(vx, h1) && Eval(y, w, h1) == Value(vy, h1)
    ensures Eval(Binary(op, I, x, y), w, h) == Computed(op, I, vx, vy, h1)
  {
  }

  lemma DistributedSum(c: Expr, r: Expr, x: Expr, y: Expr, w: World, h: Trace)
    requires c.Cnst? && IsSum(r) && WellTyped(Binary(MUL, I, c, r)) && Eval(r.l, w, h).Value?
    requires Replaces(Binary(MUL, I, c, r.l), x, w, h) && Replaces(Binary(MUL, I, c, r.r), y, w, Eval(r.l, w, h).h)
    ensures Eval(Binary(MUL, I, c, r), w, h) == Eval(Binary(r.op, I, x, y), w, h)
  {
    var a, h1, d := Eval(r.l, w, h).v, Eval(r.l, w, h).h, r.r.v;
    SumValue(r, w, h);
    assert WellTyped(Binary(MUL, I, c, r.l)) && WellTyped(Binary(MUL, I, c, r.r));
    MultipleValue(c, r.l, a, w, h, h1);
    assert Eval(x, w, h) == Value(Wrap(I, c.v * a), h1);
    MultipleValue(c, r.r, d, w, h1, h1);
    assert Eval(y, w, h1) == Value(Wrap(I, c.v * d), h1);
    SumOfProducts(r.op, c.v, a, d, h1);
    MultipleValue(c, r, SumWord(r.op, a, d), w, h, h1);
    PairValue(r.op, x, y, Wrap(I, c.v * a), Wrap(I, c.v * d), w, h, h1);
  }

  lemma SumValue(r: Expr, w: World, h: Trace)
    requires IsSum(r) && WellTyped(r) && Eval(r.l, w, h).Value?
    ensures WellTyped(r.l) && WellTyped(r.r) && TypeOf(r.l) == I && InRange(I, r.r.v)
    ensures forall h1: Trace :: Eval(r.r, w, h1) == Value(r.r.v, h1)
    ensures Eval(r, w, h) == Computed(r.op, I, Eval(r.l, w, h).v, r.r.v, Eval(r.l, w, h).h)
  {
    assert WellTyped(r.r);
    WrapId(I, r.r.v);
  }

  lemma MultipleValue(c: Expr, r: Expr, v: int, w: World, h: Trace, h1: Trace)
    requires c.Cnst? && WellTyped(Binary(MUL, I, c, r)) && Eval(r, w, h) == Value(v, h1)
    ensures InRange(I, v) && InRange(I, c.v) && Eval(Binary(MUL, I, c, r), w, h) == Value(Wrap(I, c.v * v), h1)
  {
    assert WellTyped(c);
    WrapId(I, c.v);
    ValueInRange(r, w, h);
    ComputedProduct(I, c.v, v, h1);
  }

  /** A product with the constant on the right is one with the constant on the left. */
  lemma ConstFirst(t: Type, l: Expr, c: Expr, w: World, h: Trace)
    requires c.Cnst?
    ensures Eval(Binary(MUL, t, l, c), w, h) == Eval(Binary(MUL, t, c, l), w, h)
  {
    var a := Eval(l, w, h);
    if a.Value? {
      ComputedCommutes(MUL, t, a.v, Wrap(c.t, c.v), a.h);
    }
  }

  lemma ProductReplaces(t: Type, l: Expr, r: Expr, needconst: bool, w: World, h: Trace)
    requires WellTyped(Binary(MUL, t, l, r))
    ensures Replaces(Binary(MUL, t, l, r), Product(t, l, r, needconst), w, h)
  {
    if r.Cnst? && !l.Cnst? {
      MultipleReplaces(t, r, l, needconst, w, h);
      ConstFirst(t, l, r, w, h);
    } else if l.Cnst? {
      MultipleReplaces(t, l, r, needconst, w, h);
    }
  }

  // ----- Comparisons -----

  predicate Holds(op: Operator, x: int, y: int) {
    match op
    case EQ => x == y
    case NE => x != y
    case GT => x > y
    case GE => x >= y
    case LE => x <= y
    case _ => x < y
  }

  lemma ComputedComparison(op: Operator, t: Type, x: int, y: int, h: Trace)
    requires op.Compares() && InRange(t, x) && InRange(t, y)
    ensures Computed(op, t, x, y, h) == Value(Truth(Holds(op, x, y)), h)
  {
    WrapId(t, x);
    WrapId(t, y);
  }

  /** An unsigned comparison that 0 decides. */
  lemma ZeroDecides(op: Operator, l: Expr, r: Expr, needconst: bool, w: World, h: Trace)
    requires op.Compares() && WellTyped(Binary(op, U, l, r))
    ensures (op.GE? || op.LT?) && IsValue(r, U, 0) ==>
      Replaces(Binary(op, U, l, r), Right(Root(l, needconst), Cnst(I, Truth(op.GE?))), w, h)
    ensures (op.LE? || op.GT?) && IsValue(l, U, 0) ==>
      Replaces(Binary(op, U, l, r), Right(Root(r, needconst), Cnst(I, Truth(op.LE?))), w, h)
  {
    var e := Binary(op, U, l, r);
    WrapId(U, 0);
    if (op.GE? || op.LT?) && IsValue(r, U, 0) {
      var a := Eval(l, w, h);
      if a.Value? {
        ValueInRange(l, w, h);
        ComputedComparison(op, U, a.v, 0, a.h);
        assert Eval(e, w, h) == Computed(op, U, a.v, 0, a.h);
      }
      RootThenConst(e, l, I, Truth(op.GE?), needconst, w, h);
    }
    if (op.LE? || op.GT?) && IsValue(l, U, 0) {
      var b := Eval(r, w, h);
      if b.Value? {
        ValueInRange(r, w, h);
        ComputedComparison(op, U, 0, b.v, b.h);
        assert Eval(e, w, h) == Computed(op, U, 0, b.v, b.h);
      }
      RootThenConst(e, r, I, Truth(op.LE?), needconst, w, h);
    }
  }

  /** An unsigned comparison with 0 that is a test for equality, of the words as values of either
      type and in either order. */
  lemma ZeroTest(op: Operator, x: int, y: int, h: Trace)
    requires op.Compares() && InRange(U, x) && InRange(U, y)
    ensures op.GE? && x == 0 ==> Computed(op, U, x, y, h) == Computed(EQ, I, y, x, h)
    ensures op.LT? && x == 0 ==> Computed(op, U, x, y, h) == Computed(NE, I, y, x, h)
    ensures op.GT? && y == 0 ==> Computed(op, U, x, y, h) == Computed(NE, I, x, y, h)
    ensures op.LE? && y == 0 ==> Computed(op, U, x, y, h) == Computed(EQ, I, x, y, h)
  {
    ComputedComparison(op, U, x, y, h);
    ComputedComparison(EQ, U, x, y, h);
    ComputedComparison(NE, U, x, y, h);
    ComputedCommutes(EQ, I, x, y, h);
    ComputedCommutes(NE, I, x, y, h);
    EqualityOfWords(EQ, U, x, y, h);
    EqualityOfWords(NE, U, x, y, h);
  }

  lemma ZeroEquality(op: Operator, l: Expr, r: Expr, w: World, h: Trace)
    requires op.Compares() && WellTyped(Binary(op, U, l, r))
    ensures op.GE? && IsValue(l, U, 0) ==> Replaces(Binary(op, U, l, r), Binary(EQ, I, r, l), w, h)
    ensures op.LT? && IsValue(l, U, 0) ==> Replaces(Binary(op, U, l, r), Binary(NE, I, r, l), w, h)
    ensures op.GT? && IsValue(r, U, 0) ==> Replaces(Binary(op, U, l, r), Binary(NE, I, l, r), w, h)
    ensures op.LE? && IsValue(r, U, 0) ==> Replaces(Binary(op, U, l, r), Binary(EQ, I, l, r), w, h)
  {
    if (op.GE? || op.LT?) && IsValue(l, U, 0) {
      ZeroOnLeft(op, l, r, w, h);
    }
    if (op.GT? || op.LE?) && IsValue(r, U, 0) {
      ZeroOnRight(op, l, r, w, h);
    }
  }

  lemma ZeroOnLeft(op: Operator, l: Expr, r: Expr, w: World, h: Trace)
    requires (op.GE? || op.LT?) && WellTyped(Binary(op, U, l, r)) && IsValue(l, U, 0)
    ensures Replaces(Binary(op, U, l, r), Binary(if op.GE? then EQ else NE, I, r, l), w, h)
  {
    WrapId(U, 0);
    var b := Eval(r, w, h);
    if b.Value? {
      ValueInRange(r, w, h);
      ZeroTest(op, 0, b.v, b.h);
    }
  }

  lemma ZeroOnRight(op: Operator, l: Expr, r: Expr, w: World, h: Trace)
    requires (op.GT? || op.LE?) && WellTyped(Binary(op, U, l, r)) && IsValue(r, U, 0)
    ensures Replaces(Binary(op, U, l, r), Binary(if op.GT? then NE else EQ, I, l, r), w, h)
  {
    WrapId(U, 0);
    var a := Eval(l, w, h);
    if a.Value? {
      ValueInRange(l, w, h);
      ZeroTest(op, a.v, 0, a.h);
    }
  }

  lemma FoldedComparison(op: Operator, t: Type, l: Expr, r: Expr, w: World, h: Trace)
    requires op.Compares() && WellTyped(Binary(op, t, l, r)) && BothConst(l, r, t) && InRange(t, l.v) && InRange(t, r.v)
    ensures Replaces(Binary(op, t, l, r), ConstOf(Apply(op, t, l.v, r.v), I, Binary(op, t, l, r)), w, h)
  {
    BothConstEval(op, t, l, r, w, h);
    ComputedComparison(op, t, l.v, r.v, h);
    WrapId(t, l.v);
    WrapId(t, r.v);
    ConstReplaces(Binary(op, t, l, r), I, Truth(Holds(op, l.v, r.v)), w, h);
  }

  lemma ComparisonReplaces(op: Operator, t: Type, l: Expr, r: Expr, needconst: bool, w: World, h: Trace)
    requires op.Compares() && WellTyped(Binary(op, t, l, r))
    ensures Replaces(Binary(op, t, l, r), Comparison(op, t, l, r, needconst), w, h)
  {
    if t.U? {
      ZeroDecides(op, l, r, needconst, w, h);
      ZeroEquality(op, l, r, w, h);
    }
    if BothConst(l, r, t) {
      FoldedComparison(op, t, l, r, w, h);
    }
    if op.EQ? || op.NE? {
      CommutedReplaces(op, t, l, r, w, h);
    }
  }

  // ----- The theorem -----

  /** Simplification of a binary operation keeps its value and its effects. */
  lemma SimplifyReplaces(op: Operator, t: Type, l: Expr, r: Expr, needconst: bool, w: World, h: Trace)
    requires WellTyped(Binary(op, t, l, r))
    ensures Replaces(Binary(op, t, l, r), Simplify(op, t, l, r, needconst), w, h)
  {
    var fits := MayFold(op, l, r, needconst);
    if op.ADD? || op.SUB? {
      SumReplaces(op, t, l, r, fits, w, h);
    } else if op.MUL? {
      ProductReplaces(t, l, r, needconst, w, h);
    } else if op.DIV? || op.MOD? {
      DivideReplaces(op, t, l, r, fits, needconst, w, h);
    } else if op.Shifts() {
      ShiftReplaces(op, t, l, r, fits, w, h);
    } else if op.Bitwise() {
      BitwiseReplaces(op, l, r, needconst, w, h);
    } else {
      ComparisonReplaces(op, t, l, r, needconst, w, h);
    }
  }

  lemma NegationReplaces(l: Expr, needconst: bool, w: World, h: Trace)
    requires WellTyped(l) && !l.Nothing? && TypeOf(l) == I
    ensures Replaces(Neg(l), Negation(l, needconst), w, h)
  {
    if l.Cnst? {
      WrapId(I, l.v);
      ConstReplaces(Neg(l), I, Wrap(I, -l.v), w, h);
    } else if l.Neg? {
      NegateTwice(l.l, w, h);
    }
  }

  lemma NegateTwice(l: Expr, w: World, h: Trace)
    requires WellTyped(l) && TypeOf(l) == I
    ensures Eval(Neg(Neg(l)), w, h) == Eval(l, w, h)
  {
    var a := Eval(l, w, h);
    if a.Value? {
      ValueInRange(l, w, h);
      WrapBy(I, -a.v);
      WrapSame(I, -Wrap(I, -a.v), a.v, Wraps(I, -a.v));
      WrapId(I, a.v);
    }
  }

  lemma ComplementReplaces(t: Type, l: Expr, w: World, h: Trace)
    requires WellTyped(l) && !l.Nothing? && TypeOf(l) == t
    ensures Replaces(Com(t, l), Complement(t, l), w, h)
  {
    if l.Cnst? {
      WrapId(t, l.v);
      WrapId(t, Flip(t, l.v));
    }
  }

  lemma ConvertReplaces(t: Type, l: Expr, needconst: bool, w: World, h: Trace)
    requires WellTyped(l) && !l.Nothing?
    ensures Replaces(Cvt(t, l), Convert(t, l, needconst), w, h)
  {
    if l.Cnst? {
      WrapId(l.t, l.v);
      ConstReplaces(Cvt(t, l), t, Wrap(t, l.v), w, h);
    }
  }

  lemma InverseReplaces(l: Expr, w: World, h: Trace)
    requires WellTyped(l) && !l.Nothing?
    ensures Replaces(Not(l), Inverse(l), w, h)
  {
    if l.Cnst? {
      WrapId(l.t, l.v);
      ConstReplaces(Not(l), I, Truth(l.v == 0), w, h);
    }
  }

  // ----- Conditions -----

  /** A comparison or logical operation has the value 0 or 1. */
  lemma {:induction false} LogicalValue(e: Expr, w: World, h: Trace)
    requires WellTyped(e) && IsLogical(RightKid(e)) && Eval(e, w, h).Value?
    ensures Eval(e, w, h).v == 0 || Eval(e, w, h).v == 1
    decreases e
  {
    match e
    case Right(l, r) =>
      if r.Nothing? {
        LogicalValue(l, w, h);
      } else {
        LogicalValue(r, w, Eval(l, w, h).h);
      }
    case Binary(op, t, l, r) =>
      var a := Eval(l, w, h);
      var b := Eval(r, w, a.h);
      assert Eval(e, w, h) == Computed(op, t, a.v, b.v, b.h);
    case _ =>
  }

  lemma {:induction false} LogicalType(e: Expr)
    requires WellTyped(e) && IsLogical(RightKid(e))
    ensures TypeOf(e) == I
    decreases e
  {
    if e.Right? {
      LogicalType(if e.r.Nothing? then e.l else e.r);
    }
  }

  /** A condition has the truth value of its tree. */
  lemma ConditionDecides(e: Expr, needconst: bool, w: World, h: Trace)
    requires WellTyped(e) && !e.Nothing?
    ensures var c := Condition(e, needconst);
      WellTyped(c) && !c.Nothing? && TypeOf(c) == I
        && (Eval(e, w, h).Value? ==> Eval(c, w, h) == Decided(Eval(e, w, h)))
  {
    var a := Eval(e, w, h);
    if IsLogical(RightKid(e)) {
      LogicalType(e);
      if a.Value? {
        LogicalValue(e, w, h);
      }
    } else {
      var t := TypeOf(e);
      WrapId(t, 0);
      ComparisonReplaces(NE, t, e, Cnst(t, 0), needconst, w, h);
      if a.Value? {
        ValueInRange(e, w, h);
        ComputedComparison(NE, t, a.v, 0, a.h);
        assert Eval(Binary(NE, t, e, Cnst(t, 0)), w, h) == Computed(NE, t, a.v, 0, a.h);
      }
    }
  }

  lemma ConjunctionReplaces(l: Expr, r: Expr, needconst: bool, w: World, h: Trace)
    requires WellTyped(And(l, r))
    ensures Replaces(And(l, r), Conjunction(l, r, needconst), w, h)
  {
    if l.Cnst? {
      WrapId(l.t, l.v);
      ConditionDecides(r, needconst, w, h);
    }
  }

  lemma DisjunctionReplaces(l: Expr, r: Expr, needconst: bool, w: World, h: Trace)
    requires WellTyped(Or(l, r))
    ensures Replaces(Or(l, r), Disjunction(l, r, needconst), w, h)
  {
    if l.Cnst? {
      WrapId(l.t, l.v);
      ConditionDecides(r, needconst, w, h);
    }
  }

  // ----- Whole trees -----

  /** The tree as it is built, with every operation simplified on the way up. */
  function Fold(e: Expr, needconst: bool): Expr {
    match e
    case Cnst(_, _) => e
    case Leaf(_, _) => e
    case Load(t, l) => Load(t, Fold(l, needconst))
    case Binary(op, t, l, r) => Simplify(op, t, Fold(l, needconst), Fold(r, needconst), needconst)
    case Neg(l) => Negation(Fold(l, needconst), needconst)
    case Com(t, l) => Complement(t, Fold(l, needconst))
    case Cvt(t, l) => Convert(t, Fold(l, needconst), needconst)
    case And(l, r) => Conjunction(Fold(l, needconst), Fold(r, needconst), needconst)
    case Or(l, r) => Disjunction(Fold(l, needconst), Fold(r, needconst), needconst)
    case Not(l) => Inverse(Fold(l, needconst))
    case Right(l, r) => Right(Fold(l, needconst), Fold(r, needconst))
    case Nothing => Nothing
  }

  /** What evaluation goes on with after l, if it does. */
  function After(l: Expr, w: World, h: Trace): Trace {
    if Eval(l, w, h).Value? then Eval(l, w, h).h else h
  }

  /** The simplified tree has the value of the tree, whenever that is defined, and the same effects in
      the same order. */
  lemma {:induction false} FoldReplaces(e: Expr, needconst: bool, w: World, h: Trace)
    requires WellTyped(e) && !e.Nothing?
    ensures Replaces(e, Fold(e, needconst), w, h)
    decreases e, 1
  {
    match e
    case Cnst(_, _) =>
    case Leaf(_, _) =>
    case Load(_, l) => FoldReplaces(l, needconst, w, h);
    case Binary(_, _, _, _) => OperationReplaces(e, needconst, w, h);
    case Neg(_) => UnaryReplaces(e, needconst, w, h);
    case Com(_, _) => UnaryReplaces(e, needconst, w, h);
    case Cvt(_, _) => UnaryReplaces(e, needconst, w, h);
    case And(_, _) => JunctionReplaces(e, needconst, w, h);
    case Or(_, _) => JunctionReplaces(e, needconst, w, h);
    case Not(_) => UnaryReplaces(e, needconst, w, h);
    case Right(_, _) => RightReplaces(e, needconst, w, h);
  }

  lemma UnaryReplaces(e: Expr, needconst: bool, w: World, h: Trace)
    requires WellTyped(e) && (e.Neg? || e.Com? || e.Cvt? || e.Not?)
    ensures Replaces(e, Fold(e, needconst), w, h)
    decreases e, 0
  {
    FoldReplaces(e.l, needconst, w, h);
    match e
    case Neg(l) => NegationReplaces(Fold(l, needconst), needconst, w, h);
    case Com(t, l) => ComplementReplaces(t, Fold(l, needconst), w, h);
    case Cvt(t, l) => ConvertReplaces(t, Fold(l, needconst), needconst, w, h);
    case Not(l) => InverseReplaces(Fold(l, needconst), w, h);
  }

  lemma OperationReplaces(e: Expr, needconst: bool, w: World, h: Trace)
    requires WellTyped(e) && e.Binary?
    ensures Replaces(e, Fold(e, needconst), w, h)
    decreases e, 0
  {
    var l, r := Fold(e.l, needconst), Fold(e.r, needconst);
    FoldReplaces(e.l, needconst, w, h);
    FoldReplaces(e.r, needconst, w, After(e.l, w, h));
    OperandsReplaced(e, l, r, w, h);
    SimplifyReplaces(e.op, e.t, l, r, needconst, w, h);
  }

  lemma OperandsReplaced(e: Expr, l: Expr, r: Expr, w: World, h: Trace)
    requires WellTyped(e) && e.Binary? && Replaces(e.l, l, w, h) && Replaces(e.r, r, w, After(e.l, w, h))
    ensures Replaces(e, Binary(e.op, e.t, l, r), w, h)
  {
  }

  lemma JunctionReplaces(e: Expr, needconst: bool, w: World, h: Trace)
    requires WellTyped(e) && (e.And? || e.Or?)
    ensures Replaces(e, Fold(e, needconst), w, h)
    decreases e, 0
  {
    FoldReplaces(e.l, needconst, w, h);
    FoldReplaces(e.r, needconst, w, After(e.l, w, h));
    if e.And? {
      ConjunctionReplaces(Fold(e.l, needconst), Fold(e.r, needconst), needconst, w, h);
    } else {
      DisjunctionReplaces(Fold(e.l, needconst), Fold(e.r, needconst), needconst, w, h);
    }
  }

  lemma RightReplaces(e: Expr, needconst: bool, w: World, h: Trace)
    requires WellTyped(e) && e.Right?
    ensures Replaces(e, Fold(e, needconst), w, h)
    decreases e, 0
  {
    if !e.l.Nothing? {
      FoldReplaces(e.l, needconst, w, h);
    }
    if !e.r.Nothing? {
      FoldReplaces(e.r, needconst, w, After(e.l, w, h));
    }
  }
}
