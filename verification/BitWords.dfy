/** Single bits of 32-bit words. */
module BitWords {
  import opened Bits

  function BitAt(w: nat, b: nat): (v: nat)
    ensures v < 2
    decreases b
  {
    if b == 0 then w % 2 else BitAt(w / 2, b - 1)
  }

  /** Bitwise operations work bit by bit. */
  lemma {:induction false} CombineBit(op: Bitwise, x: nat, y: nat, n: nat, b: nat)
    requires b < n
    ensures BitAt(Combine(op, x, y, n), b) == Bit(op, BitAt(x, b), BitAt(y, b))
    decreases n
  {
    var z := Combine(op, x / 2, y / 2, n - 1);
    assert Combine(op, x, y, n) / 2 == z;
    if b > 0 {
      CombineBit(op, x / 2, y / 2, n - 1, b - 1);
    }
  }

  lemma {:induction false} PowerBit(b: nat, c: nat)
    ensures BitAt(Power2(b), c) == if b == c then 1 else 0
    decreases c
  {
    if b == 0 {
      if c > 0 {
        ZeroBit(c - 1);
      }
    } else if c > 0 {
      assert Power2(b) / 2 == Power2(b - 1);
      PowerBit(b - 1, c - 1);
    }
  }

  lemma {:induction false} ZeroBit(b: nat)
    ensures BitAt(0, b) == 0
    decreases b
  {
    if b > 0 {
      ZeroBit(b - 1);
    }
  }

  /** The complement within n bits. */
  lemma {:induction false} ComplementBit(w: nat, n: nat, b: nat)
    requires w < Power2(n) && b < n
    ensures BitAt(Power2(n) - 1 - w, b) == 1 - BitAt(w, b)
    decreases n
  {
    if b > 0 {
      assert (Power2(n) - 1 - w) / 2 == Power2(n - 1) - 1 - w / 2;
      ComplementBit(w / 2, n - 1, b - 1);
    }
  }

  /** Words with the same bits are equal. */
  lemma {:induction false} SameBits(x: nat, y: nat, n: nat)
    requires x < Power2(n) && y < Power2(n) && forall b: nat :: b < n ==> BitAt(x, b) == BitAt(y, b)
    ensures x == y
    decreases n
  {
    if n > 0 {
      assert BitAt(x, 0) == BitAt(y, 0);
      forall b: nat | b < n - 1 ensures BitAt(x / 2, b) == BitAt(y / 2, b) {
        assert BitAt(x, b + 1) == BitAt(y, b + 1);
      }
      SameBits(x / 2, y / 2, n - 1);
    }
  }

  /** w shifted right by j. */
  function ShiftRight(w: nat, j: nat): nat
    decreases j
  {
    if j == 0 then w else ShiftRight(w / 2, j - 1)
  }

  lemma {:induction false} ShiftBit(w: nat, j: nat, c: nat)
    ensures BitAt(ShiftRight(w, j), c) == BitAt(w, j + c)
    decreases j
  {
    if j > 0 {
      ShiftBit(w / 2, j - 1, c);
    }
  }

  lemma {:induction false} ShiftBound(w: nat, j: nat, k: nat)
    requires w < Power2(j + k)
    ensures ShiftRight(w, j) < Power2(k)
    decreases j
  {
    if j > 0 {
      ShiftBound(w / 2, j - 1, k);
    }
  }

  lemma {:induction false} AndBelow(x: nat, y: nat, n: nat)
    ensures Combine(AND, x, y, n) <= y
  {
    if n > 0 {
      AndBelow(x / 2, y / 2, n - 1);
    }
  }

  /** A word that is not 0 has a bit that is set; the lowest is not set below LowBit. */
  lemma {:induction false} LowBitSet(w: nat)
    requires 0 < w
    ensures BitAt(w, LowBit(w)) == 1 && forall b: nat :: b < LowBit(w) ==> BitAt(w, b) == 0
  {
    if w % 2 == 0 {
      LowBitSet(w / 2);
      forall b: nat | b < LowBit(w) ensures BitAt(w, b) == 0 {
        if b > 0 {
          assert BitAt(w / 2, b - 1) == 0;
        }
      }
    }
  }

  lemma {:induction false} LowBitBound(w: nat, n: nat)
    requires 0 < w < Power2(n)
    ensures LowBit(w) < n
  {
    if w % 2 == 0 {
      LowBitBound(w / 2, n - 1);
    }
  }

  /** A word and its negative have the lowest bit that is set in common, and no other. */
  lemma {:induction false} IsolateLowBit(w: nat, n: nat)
    requires 0 < w < Power2(n)
    ensures Combine(AND, w, Power2(n) - w, n) == Power2(LowBit(w))
    decreases n
  {
    if w % 2 == 0 {
      assert (Power2(n) - w) / 2 == Power2(n - 1) - w / 2;
      IsolateLowBit(w / 2, n - 1);
    } else {
      assert (Power2(n) - w) / 2 == Power2(n - 1) - 1 - w / 2;
      DisjointComplement(w / 2, n - 1);
    }
  }

  lemma {:induction false} DisjointComplement(w: nat, n: nat)
    requires w < Power2(n)
    ensures Combine(AND, w, Power2(n) - 1 - w, n) == 0
  {
    if n > 0 {
      assert (Power2(n) - 1 - w) / 2 == Power2(n - 1) - 1 - w / 2;
      DisjointComplement(w / 2, n - 1);
    }
  }
}
