/** What the operators of expression trees compute, without the functions that compute it. */
module Operators {
  import opened Bits
  import opened Folding
  import CodeList

  /** Results are kept to 32 bits: the wrapped number is the one in the range of its type that
      differs by a multiple of 2^32. */
  lemma WrapUnique(t: Type, x: int, w: int)
    ensures w == Wrap(t, x) <==>
      && (if t.I? then -0x8000_0000 <= w < 0x8000_0000 else 0 <= w < 0x1_0000_0000)
      && exists k: int :: w == x + 0x1_0000_0000 * k
  {
    var k := -(x / WORD);
    assert x % WORD == x + 0x1_0000_0000 * k;
    assert x % WORD - WORD == x + 0x1_0000_0000 * (k - 1);
    if k': int :| w == x + 0x1_0000_0000 * k' {
      assert x == WORD * -k' + w;
    }
  }

  /** Quotient and remainder are those of division that truncates toward zero. They exist but for
      division by zero, and of the least int by -1. */
  lemma DivisionTruncates(t: Type, x: int, y: int)
    requires InRange(t, x) && InRange(t, y)
    ensures Apply(DIV, t, x, y).Some? <==> y != 0 && !(t.I? && x == -0x8000_0000 && y == -1)
    ensures Apply(MOD, t, x, y).Some? <==> Apply(DIV, t, x, y).Some?
    ensures Apply(DIV, t, x, y).Some? ==>
      var q, r := Apply(DIV, t, x, y).value, Apply(MOD, t, x, y).value;
      && x == q * y + r && (if y < 0 then y < r < -y else -y < r < y)
      && (x >= 0 ==> r >= 0) && (x <= 0 ==> r <= 0)
  {
    if y != 0 {
      Truncated(x, y);
      var k := Abs(x) / Abs(y);
      QuotientBound(Abs(x), Abs(y));
      assert Quotient(x, y) == k || Quotient(x, y) == -k;
    }
  }

  lemma Truncated(x: int, y: int)
    requires y != 0
    ensures var q := Quotient(x, y); var r := x - Times(q, y);
      && x == q * y + r && (if y < 0 then y < r < -y else -y < r < y) && (x >= 0 ==> r >= 0) && (x <= 0 ==> r <= 0)
  {
    var a, b := Abs(x), Abs(y);
    var k := a / b;
    DivideNat(a, b);
    SignedProduct(k, b);
  }

  lemma SignedProduct(k: int, b: int)
    ensures -k * b == -(b * k) && k * -b == -(b * k) && -k * -b == b * k && k * b == b * k
  {
  }

  lemma DivideNat(a: nat, b: nat)
    requires 0 < b
    ensures a == b * (a / b) + a % b && 0 <= a % b < b
  {
  }

  lemma QuotientBound(a: nat, b: nat)
    requires 0 < b
    ensures 0 <= a / b <= a && (b == 1 ==> a / b == a) && (b > 1 ==> 2 * (a / b) <= a)
  {
    var k := a / b;
    DivideNat(a, b);
    ProductAtLeast(b, k);
  }

  lemma ProductAtLeast(b: nat, k: nat)
    requires 0 < b
    ensures k <= b * k && (b > 1 ==> 2 * k <= b * k)
  {
  }

  /** Shifts by 0 to 31 multiply and divide by powers of two; the quotient is rounded down. */
  lemma ShiftsScale(t: Type, x: int, n: int)
    requires InRange(t, x)
    ensures var l, r := Apply(LSH, t, x, n), Apply(RSH, t, x, n);
      && (l.Some? <==> 0 <= n < 32) && (r.Some? <==> 0 <= n < 32)
      && (0 <= n < 32 ==> l.value == Wrap(t, x * Power2(n)))
      && (0 <= n < 32 ==> r.value * Power2(n) <= x < (r.value + 1) * Power2(n))
  {
    if 0 <= n < 32 {
      RoundedDown(x, Power2(n));
    }
  }

  lemma RoundedDown(x: int, p: nat)
    requires 0 < p
    ensures x / p * p <= x < (x / p + 1) * p
  {
    assert (x / p + 1) * p == x / p * p + p;
  }

  /** Bit i of a number. */
  function BitOf(x: nat, i: nat): nat {
    if i == 0 then x % 2 else BitOf(x / 2, i - 1)
  }

  lemma {:induction false} CombineBit(op: Bits.Bitwise, x: nat, y: nat, n: nat, i: nat)
    requires i < n
    ensures BitOf(x, i) < 2 && BitOf(y, i) < 2
    ensures BitOf(Combine(op, x, y, n), i) == Bit(op, BitOf(x, i), BitOf(y, i))
  {
    var c := Bit(op, x % 2, y % 2);
    var z := 2 * Combine(op, x / 2, y / 2, n - 1) + c;
    assert z / 2 == Combine(op, x / 2, y / 2, n - 1) && z % 2 == c;
    if i > 0 {
      CombineBit(op, x / 2, y / 2, n - 1, i - 1);
    }
  }

  /** Bit by bit: both, either, just one. */
  lemma {:induction false} BitwiseBits(op: Operator, x: int, y: int, i: nat)
    requires op.Bitwise() && InRange(U, x) && InRange(U, y) && i < 32
    ensures var r := Apply(op, U, x, y);
      && r.Some? && InRange(U, r.value)
      && (op.BAND? ==> (BitOf(r.value, i) == 1 <==> BitOf(x, i) == 1 && BitOf(y, i) == 1))
      && (op.BOR? ==> (BitOf(r.value, i) == 1 <==> BitOf(x, i) == 1 || BitOf(y, i) == 1))
      && (op.BXOR? ==> (BitOf(r.value, i) == 1 <==> BitOf(x, i) != BitOf(y, i)))
  {
    var b := if op.BAND? then Bits.AND else if op.BOR? then Bits.OR else Bits.XOR;
    Power32();
    CombineBit(b, x, y, 32, i);
    assert Apply(op, U, x, y) == Some(Combine(b, x, y, 32));
  }

  /** The complement changes every bit, and is a number of its type. */
  lemma FlipBits(t: Type, x: int, i: nat)
    requires InRange(t, x) && i < 32
    ensures InRange(t, Flip(t, x)) && BitOf(Wrap(U, Flip(t, x)), i) == 1 - BitOf(Wrap(U, x), i)
  {
    var u := Wrap(U, x);
    Power32();
    assert Wrap(U, Flip(t, x)) == Power2(32) - 1 - u;
    ComplementBit(u, 32, i);
  }

  lemma {:induction false} ComplementBit(u: nat, n: nat, i: nat)
    requires i < n && u < Power2(n)
    ensures BitOf(Power2(n) - 1 - u, i) == 1 - BitOf(u, i)
  {
    var c := Power2(n) - 1 - u;
    if i == 0 {
      assert Power2(n) == 2 * Power2(n - 1);
    } else {
      assert c / 2 == Power2(n - 1) - 1 - u / 2;
      ComplementBit(u / 2, n - 1, i - 1);
    }
  }

  /** Comparisons give 1 when they hold and 0 when they do not; so does the logical not of 0. */
  lemma ComparisonsHold(t: Type, x: int, y: int)
    requires InRange(t, x) && InRange(t, y)
    ensures Apply(EQ, t, x, y) == Some(if x == y then 1 else 0) && Apply(NE, t, x, y) == Some(if x == y then 0 else 1)
    ensures Apply(LT, t, x, y) == Some(if x < y then 1 else 0) && Apply(GE, t, x, y) == Some(if x < y then 0 else 1)
    ensures Apply(GT, t, x, y) == Some(if y < x then 1 else 0) && Apply(LE, t, x, y) == Some(if y < x then 0 else 1)
  {
  }

  /** The comparisons that branch are the comparisons of trees. */
  lemma BranchesAlike(t: Type, x: int, y: int)
    requires InRange(t, x) && InRange(t, y)
    ensures CodeList.Compare(CodeList.EQ, x, y) <==> Apply(EQ, t, x, y) == Some(1)
    ensures CodeList.Compare(CodeList.NE, x, y) <==> Apply(NE, t, x, y) == Some(1)
    ensures CodeList.Compare(CodeList.GT, x, y) <==> Apply(GT, t, x, y) == Some(1)
    ensures CodeList.Compare(CodeList.GE, x, y) <==> Apply(GE, t, x, y) == Some(1)
    ensures CodeList.Compare(CodeList.LE, x, y) <==> Apply(LE, t, x, y) == Some(1)
    ensures CodeList.Compare(CodeList.LT, x, y) <==> Apply(LT, t, x, y) == Some(1)
  {
  }
}
