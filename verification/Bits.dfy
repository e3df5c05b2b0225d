/** 32-bit words as numbers: wrap-around and bitwise operations. */
module Bits {

  const WORD := 0x1_0000_0000

  predicate IsInt(x: int) {
    -0x8000_0000 <= x < 0x8000_0000
  }

  /** x as a 32-bit int, wrapped around. */
  function WrapInt(x: int): (w: int)
    ensures IsInt(w)
    ensures IsInt(x) ==> w == x
  {
    var m := x % WORD;
    if m >= 0x8000_0000 then m - WORD else m
  }

  function Power2(n: nat): (p: nat)
    ensures 0 < p
  {
    if n == 0 then 1 else 2 * Power2(n - 1)
  }

  lemma Power32()
    ensures Power2(31) == 0x8000_0000 && Power2(32) == 0x1_0000_0000
  {
    assert Power2(8) == 256;
    assert Power2(16) == 0x1_0000;
    assert Power2(24) == 0x100_0000;
    assert Power2(31) == 0x8000_0000;
  }

  datatype Bitwise = AND | OR | XOR

  function Bit(op: Bitwise, a: nat, b: nat): (c: nat)
    requires a < 2 && b < 2
    ensures c < 2
  {
    match op
    case AND => if a == 1 && b == 1 then 1 else 0
    case OR => if a == 1 || b == 1 then 1 else 0
    case XOR => if a != b then 1 else 0
  }

  /** The bitwise operation on the low n bits. */
  function Combine(op: Bitwise, x: nat, y: nat, n: nat): (z: nat)
    ensures z < Power2(n)
  {
    if n == 0 then 0 else 2 * Combine(op, x / 2, y / 2, n - 1) + Bit(op, x % 2, y % 2)
  }

  lemma {:induction false} CombineZero(op: Bitwise, x: nat, n: nat)
    requires x < Power2(n)
    ensures Combine(op, x, 0, n) == if op.AND? then 0 else x
  {
    if n > 0 {
      CombineZero(op, x / 2, n - 1);
    }
  }

  /** The low k bits. */
  lemma AndMask(x: nat, k: nat, n: nat)
    requires k <= n && x < Power2(n)
    ensures Combine(AND, x, Power2(k) - 1, n) == x % Power2(k)
  {
    AndMaskFor(x, k, n, Power2(k));
  }

  lemma {:induction false} AndMaskFor(x: nat, k: nat, n: nat, m: nat)
    requires k <= n && x < Power2(n) && m == Power2(k)
    ensures Combine(AND, x, m - 1, n) == x % m
    decreases k
  {
    if k == 0 {
      CombineZero(AND, x, n);
    } else {
      var h := Power2(k - 1);
      assert m == 2 * h;
      HalfBelow(x, n);
      AndMaskFor(x / 2, k - 1, n - 1, h);
      AndMaskStep(x, h, n);
    }
  }

  lemma HalfBelow(x: nat, n: nat)
    requires 0 < n && x < Power2(n)
    ensures x / 2 < Power2(n - 1)
  {
  }

  lemma AndMaskStep(x: nat, m: nat, n: nat)
    requires 0 < n && 0 < m && Combine(AND, x / 2, m - 1, n - 1) == (x / 2) % m
    ensures Combine(AND, x, 2 * m - 1, n) == x % (2 * m)
  {
    assert (2 * m - 1) / 2 == m - 1 && (2 * m - 1) % 2 == 1;
    HalveMod(x, m);
  }

  lemma HalveMod(x: nat, m: nat)
    requires 0 < m
    ensures x % (2 * m) == 2 * ((x / 2) % m) + x % 2
  {
    var q, r := (x / 2) / m, (x / 2) % m;
    assert x / 2 == q * m + r;
    assert x == (2 * m) * q + (2 * r + x % 2);
    ModUnique(x, 2 * m, q, 2 * r + x % 2);
  }

  lemma ModUnique(x: nat, m: nat, q: nat, r: nat)
    requires r < m && x == m * q + r
    ensures x % m == r
  {
    var d := x / m - q;
    assert x == m * (x / m) + x % m;
    assert m * d == r - x % m;
    assert d > 0 ==> m * d >= m;
    assert d < 0 ==> m * d <= -(m as int);
  }

  lemma {:induction false} AndSelf(x: nat, n: nat)
    requires x < Power2(n)
    ensures Combine(AND, x, x, n) == x
  {
    if n > 0 {
      AndSelf(x / 2, n - 1);
    }
  }

  /** The position of the lowest bit that is set. */
  function LowBit(u: nat): nat
    requires 0 < u
  {
    if u % 2 == 1 then 0 else 1 + LowBit(u / 2)
  }

  /** A number is a power of two if it has no bit in common with the number before it. */
  lemma {:induction false} SingleBit(u: nat, n: nat)
    requires 0 < u < Power2(n) && Combine(AND, u, u - 1, n) == 0
    ensures u == Power2(LowBit(u)) && LowBit(u) < n
  {
    if u % 2 == 1 {
      assert (u - 1) / 2 == u / 2;
      AndSelf(u / 2, n - 1);
    } else {
      assert (u - 1) / 2 == u / 2 - 1;
      SingleBit(u / 2, n - 1);
    }
  }

  /** If u is a power of two and greater than 1, its logarithm; else 0. */
  function Log2(u: nat): nat {
    if u > 1 && Combine(AND, u, u - 1, 32) == 0 then LowBit(u) else 0
  }

  lemma Log2IsLog(u: nat)
    requires u < Power2(32) && Log2(u) != 0
    ensures u == Power2(Log2(u)) && 0 < Log2(u) < 32
  {
    SingleBit(u, 32);
  }

  lemma {:induction false} LowBitOfPower(n: nat)
    ensures LowBit(Power2(n)) == n
  {
    if n > 0 {
      LowBitOfPower(n - 1);
      assert Power2(n) / 2 == Power2(n - 1);
    }
  }

  lemma {:induction false} PowerLess(m: nat, n: nat)
    requires m < n
    ensures Power2(m) < Power2(n)
  {
    if m + 1 < n {
      PowerLess(m, n - 1);
    }
  }

  lemma PowerHasOneBit(m: nat, n: nat)
    requires 0 < m < n
    ensures 1 < Power2(m) && Combine(AND, Power2(m), Power2(m) - 1, n) == 0
  {
    PowerLess(0, m);
    PowerLess(m, n);
    AndMask(Power2(m), m, n);
  }

  /** No power of two from 2 to 2^31 is missed. */
  lemma PowerHasLog2(m: nat)
    requires 0 < m < 32
    ensures Log2(Power2(m)) == m
  {
    PowerHasOneBit(m, 32);
    LowBitOfPower(m);
  }

  method IsPow2(u: nat) returns (n: nat)
    ensures n == Log2(u)
  {
    if u > 1 && Combine(AND, u, u - 1, 32) == 0 {
      n := 0;
      var w := u;
      while w != 0
        invariant 0 < w && n + LowBit(w) == LowBit(u)
        decreases w
      {
        if w % 2 == 1 {
          return n;
        }
        w, n := w / 2, n + 1;
      }
    }
    return 0;
  }
}
