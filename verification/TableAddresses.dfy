/** Where a jump through a table looks for its entry. */
module TableAddresses {
  import opened Bits
  import Folding
  import Simplifier

  /** The size of an address, and so of an entry. */
  const ENTRY_SIZE := 8

  /** The distance, from the entry for the lowest case, of the entry that a jump for x takes. The
      index times the size of an entry is computed as an int: 8 * x less 8 * low. When 8 * low is an
      int it is taken off the address of the table instead, by adding its negative, again an int. */
  function TableOffset(low: int, x: int): int {
    if IsInt(ENTRY_SIZE * low) then WrapInt(ENTRY_SIZE * x) + WrapInt(-(ENTRY_SIZE * low))
    else WrapInt(ENTRY_SIZE * x - ENTRY_SIZE * low)
  }

  /** The same, in entries. */
  function TableIndex(low: int, x: int): int {
    TableOffset(low, x) / ENTRY_SIZE
  }

  /** Entries are not straddled. */
  lemma OffsetOfEntry(low: int, x: int)
    ensures TableOffset(low, x) == ENTRY_SIZE * TableIndex(low, x)
  {
    if IsInt(ENTRY_SIZE * low) {
      var p := WrappedMultiple(x);
      var q := WrappedMultiple(-low);
      assert TableOffset(low, x) == ENTRY_SIZE * (p + q);
    } else {
      var p := WrappedMultiple(x - low);
      assert TableOffset(low, x) == ENTRY_SIZE * p;
    }
  }

  lemma WrappedMultiple(y: int) returns (p: int)
    ensures WrapInt(ENTRY_SIZE * y) == ENTRY_SIZE * p
  {
    var q := (ENTRY_SIZE * y) / WORD;
    var m := y - WORD / ENTRY_SIZE * q;
    assert (ENTRY_SIZE * y) % WORD == ENTRY_SIZE * m;
    p := if ENTRY_SIZE * m >= 0x8000_0000 then m - WORD / ENTRY_SIZE else m;
  }

  /** Some case between low and high has its entry looked for elsewhere. */
  predicate Far(low: int, high: int) {
    if IsInt(ENTRY_SIZE * low) then !IsInt(-(ENTRY_SIZE * low)) || !IsInt(ENTRY_SIZE * high)
    else !IsInt(ENTRY_SIZE * (high - low))
  }

  lemma IndexExact(low: int, high: int, x: int)
    requires low <= x <= high && !Far(low, high)
    ensures TableIndex(low, x) == x - low
  {
    assert ENTRY_SIZE * x - ENTRY_SIZE * low == ENTRY_SIZE * (x - low);
    assert TableOffset(low, x) == ENTRY_SIZE * (x - low);
  }

  /** For x the jump looks below the table. */
  lemma IndexAstray(low: int, high: int) returns (x: int)
    requires IsInt(low) && IsInt(high) && low <= high && Far(low, high)
    ensures low <= x <= high && TableIndex(low, x) < 0
  {
    if !IsInt(ENTRY_SIZE * low) {
      x := low + 0x1000_0000;
      assert ENTRY_SIZE * x - ENTRY_SIZE * low == 0x8000_0000;
    } else if !IsInt(-(ENTRY_SIZE * low)) {
      x := low;
    } else {
      x := 0x1000_0000;
    }
    assert TableOffset(low, x) < 0;
  }

  /** Cases nowhere far stay so when some are left out, unless the lowest becomes the one whose
      distance has no negative. */
  lemma FarWithin(low: int, high: int, low': int, high': int)
    requires low <= low' <= high' <= high && !Far(low, high) && low' != -0x1000_0000
    ensures !Far(low', high')
  {
  }

  // ----- What the simplifier makes of the index -----

  /** Whether 8 * c folds is whether it is an int. */
  lemma ScaleFolds(c: int)
    requires IsInt(c)
    ensures Simplifier.Folds(Folding.MUL, c, ENTRY_SIZE, false) <==> IsInt(ENTRY_SIZE * c)
  {
  }

  lemma LogOfEight()
    ensures Power2(3) == ENTRY_SIZE && Log2(ENTRY_SIZE) == 3
  {
    assert Power2(3) == ENTRY_SIZE;
    PowerHasLog2(3);
  }

  /** 8 * e, for an expression that is no sum, becomes a shift. */
  lemma {:induction false} EightTimes(e: Folding.Expr)
    requires !Simplifier.IsSum(e)
    ensures var fits := Simplifier.MayFold(Folding.LSH, e, Folding.Cnst(Folding.I, 3), false);
      Simplifier.Multiple(Folding.I, Folding.Cnst(Folding.I, ENTRY_SIZE), e, false)
      == Simplifier.Shift(Folding.LSH, Folding.I, e, Folding.Cnst(Folding.I, 3), fits)
  {
    LogOfEight();
  }

  lemma {:induction false} EightTimesLeaf(x: Folding.Expr)
    requires x.Leaf?
    ensures Simplifier.Multiple(Folding.I, Folding.Cnst(Folding.I, ENTRY_SIZE), x, false) == Shifted(x)
  {
    EightTimes(x);
    assert !Simplifier.MayFold(Folding.LSH, x, Folding.Cnst(Folding.I, 3), false);
  }

  /** The shift of a constant is folded if the result is an int. */
  lemma EightTimesConst(c: int)
    requires IsInt(c)
    ensures var e := Folding.Cnst(Folding.I, c);
      Simplifier.Multiple(Folding.I, Folding.Cnst(Folding.I, ENTRY_SIZE), e, false)
      == if IsInt(ENTRY_SIZE * c) then Folding.Cnst(Folding.I, ENTRY_SIZE * c) else Shifted(e)
  {
    LogOfEight();
    ScaleFolds(c);
    EightTimes(Folding.Cnst(Folding.I, c));
  }

  function Shifted(e: Folding.Expr): Folding.Expr {
    Folding.Binary(Folding.LSH, Folding.I, e, Folding.Cnst(Folding.I, 3))
  }

  /** A constant times a difference is the difference of the products. */
  lemma TimesDifference(k: Folding.Expr, x: Folding.Expr, c: Folding.Expr)
    requires Simplifier.IsConst(k, Folding.I) && Simplifier.IsConst(c, Folding.I)
    requires !Simplifier.Multiple(Folding.I, k, x, false).Cnst?
    ensures Simplifier.Simplify(Folding.MUL, Folding.I, k, Folding.Binary(Folding.SUB, Folding.I, x, c), false)
      == Folding.Binary(Folding.SUB, Folding.I, Simplifier.Multiple(Folding.I, k, x, false),
           Simplifier.Multiple(Folding.I, k, c, false))
  {
    var d := Folding.Binary(Folding.SUB, Folding.I, x, c);
    assert Simplifier.IsSum(d);
    assert Simplifier.Product(Folding.I, k, d, false) == Simplifier.Multiple(Folding.I, k, d, false);
  }

  /** 8 * (x - low) becomes (x << 3) - 8 * low, where 8 * low is a constant if it is an int. */
  lemma IndexScaled(x: Folding.Expr, low: int)
    requires x.Leaf? && x.t.I? && IsInt(low)
    ensures var least := Folding.Cnst(Folding.I, low);
      var index := Folding.Binary(Folding.SUB, Folding.I, x, least);
      Simplifier.Simplify(Folding.MUL, Folding.I, Folding.Cnst(Folding.I, ENTRY_SIZE), index, false)
      == Folding.Binary(Folding.SUB, Folding.I, Shifted(x),
           if IsInt(ENTRY_SIZE * low) then Folding.Cnst(Folding.I, ENTRY_SIZE * low) else Shifted(least))
  {
    EightTimesLeaf(x);
    EightTimesConst(low);
    TimesDifference(Folding.Cnst(Folding.I, ENTRY_SIZE), x, Folding.Cnst(Folding.I, low));
  }
}
