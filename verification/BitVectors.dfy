/** Bit vectors: arrays of words that stand for finite sets. */
module BitVectors {
  import opened Bits
  import opened BitWords

  /** How many words hold n bits. */
  function WordsFor(n: nat): nat {
    ((n + 7) / 8 + 3) / 4
  }

  /** Number i is in the set. */
  predicate Member(words: seq<nat>, i: nat) {
    i / 32 < |words| && BitAt(words[i / 32], i % 32) == 1
  }

  /** The members below n. */
  function Elements(words: seq<nat>, n: nat): set<nat> {
    set i: nat | i < n && Member(words, i)
  }

  /** Words of 32 bits, without bits that are set from n on. */
  ghost predicate Clean(words: seq<nat>, n: nat) {
    && |words| == WordsFor(n)
    && (forall k: nat :: k < |words| ==> words[k] < WORD)
    && (forall i: nat {:trigger Member(words, i)} :: Member(words, i) ==> i < n)
  }

  lemma WordIsPower()
    ensures Power2(32) == WORD
  {
    assert Power2(8) == 256;
    assert Power2(16) == 0x1_0000;
    assert Power2(24) == 0x100_0000;
  }

  lemma PowerBound(b: nat)
    requires b < 32
    ensures Power2(b) < WORD
  {
    WordIsPower();
    PowerLess(b, 32);
  }

  lemma SplitIndex(i: nat)
    ensures i == 32 * (i / 32) + i % 32 && i % 32 < 32
  {
  }

  lemma JoinIndex(k: nat, b: nat)
    requires b < 32
    ensures (32 * k + b) / 32 == k && (32 * k + b) % 32 == b
  {
  }

  /** The word that holds bit i is there. */
  lemma WordThere(n: nat, i: nat)
    requires i < n
    ensures i / 32 < WordsFor(n)
  {
  }

  /** Changing one word changes the members in it. */
  lemma WordChanged(words: seq<nat>, k: nat, w: nat, i: nat)
    requires k < |words|
    ensures Member(words[k := w], i) <==> if i / 32 == k then BitAt(w, i % 32) == 1 else Member(words, i)
  {
  }

  function WordOp(op: Bitwise, x: nat, y: nat): (z: nat)
    ensures z < WORD
  {
    WordIsPower();
    Combine(op, x, y, 32)
  }

  function Complement(w: nat): (z: nat)
    requires w < WORD
    ensures z < WORD
  {
    WORD - 1 - w
  }

  lemma OpBit(op: Bitwise, x: nat, y: nat, b: nat)
    requires b < 32
    ensures BitAt(WordOp(op, x, y), b) == Bit(op, BitAt(x, b), BitAt(y, b))
  {
    CombineBit(op, x, y, 32, b);
  }

  lemma NotBit(w: nat, b: nat)
    requires w < WORD && b < 32
    ensures BitAt(Complement(w), b) == 1 - BitAt(w, b)
  {
    WordIsPower();
    ComplementBit(w, 32, b);
  }

  /** The bits of w, as word k, are below n. */
  ghost predicate Within(w: nat, k: nat, n: nat) {
    forall b: nat {:trigger BitAt(w, b)} :: b < 32 && BitAt(w, b) == 1 ==> 32 * k + b < n
  }

  lemma CleanWord(words: seq<nat>, n: nat, k: nat)
    requires Clean(words, n) && k < |words|
    ensures Within(words[k], k, n)
  {
    forall b: nat | b < 32 && BitAt(words[k], b) == 1 ensures 32 * k + b < n {
      JoinIndex(k, b);
      assert Member(words, 32 * k + b);
    }
  }

  lemma CleanPut(words: seq<nat>, n: nat, k: nat, w: nat)
    requires Clean(words, n) && k < |words| && w < WORD && Within(w, k, n)
    ensures Clean(words[k := w], n)
  {
    var after := words[k := w];
    forall i: nat | Member(after, i) ensures i < n {
      WordChanged(words, k, w, i);
      SplitIndex(i);
      assert Member(words, i) ==> i < n;
    }
  }

  lemma TestBit(w: nat, b: nat)
    requires b < 32
    ensures WordOp(AND, w, Power2(b)) != 0 <==> BitAt(w, b) == 1
  {
    OpBit(AND, w, Power2(b), b);
    PowerBit(b, b);
    if WordOp(AND, w, Power2(b)) == 0 {
      ZeroBit(b);
    } else {
      OtherBits(w, b);
    }
  }

  /** A word of one bit at most is 0 if that bit is. */
  lemma OtherBits(w: nat, b: nat)
    requires b < 32 && WordOp(AND, w, Power2(b)) != 0
    ensures BitAt(w, b) == 1
  {
    var z := WordOp(AND, w, Power2(b));
    LowBitSet(z);
    WordIsPower();
    LowBitBound(z, 32);
    OpBit(AND, w, Power2(b), LowBit(z));
    PowerBit(b, LowBit(z));
  }

  /** Word k with bit b set as well, or cleared. */
  lemma BitPut(words: seq<nat>, k: nat, b: nat, w: nat, v: nat, n: nat)
    requires Clean(words, n) && k < |words| && b < 32 && w < WORD && 32 * k + b < n
    requires forall c: nat {:trigger BitAt(w, c)} :: c < 32 ==> BitAt(w, c) == if c == b then v else BitAt(words[k], c)
    ensures Clean(words[k := w], n)
    ensures Elements(words[k := w], n) == if v == 1 then Elements(words, n) + {32 * k + b}
      else Elements(words, n) - {32 * k + b}
  {
    CleanWord(words, n, k);
    CleanPut(words, n, k, w);
    forall i: nat ensures Member(words[k := w], i) <==> if i == 32 * k + b then v == 1 else Member(words, i) {
      WordChanged(words, k, w, i);
      SplitIndex(i);
      JoinIndex(k, b);
    }
  }

  /** The bitwise combination of two vectors. */
  lemma Combined(op: Bitwise, a: seq<nat>, b: seq<nat>, c: seq<nat>, n: nat, i: nat)
    requires Clean(a, n) && Clean(b, n) && |c| == |a| && i < n
    requires forall k: nat :: k < |a| ==> c[k] == WordOp(op, a[k], b[k])
    ensures Member(c, i) <==> Bit(op, if Member(a, i) then 1 else 0, if Member(b, i) then 1 else 0) == 1
  {
    SplitIndex(i);
    WordThere(n, i);
    OpBit(op, a[i / 32], b[i / 32], i % 32);
  }

  lemma CombinedClean(op: Bitwise, a: seq<nat>, b: seq<nat>, c: seq<nat>, n: nat)
    requires Clean(a, n) && Clean(b, n) && |c| == |a|
    requires forall k: nat :: k < |a| ==> c[k] == WordOp(op, a[k], b[k])
    ensures Clean(c, n)
  {
    forall i: nat | Member(c, i) ensures i < n {
      SplitIndex(i);
      OpBit(op, a[i / 32], b[i / 32], i % 32);
      assert (Member(a, i) ==> i < n) && (Member(b, i) ==> i < n);
    }
  }

  /** What is left of a vector without the members of another. */
  lemma Subtracted(a: seq<nat>, b: seq<nat>, c: seq<nat>, n: nat)
    requires Clean(a, n) && Clean(b, n) && |c| == |a|
    requires forall k: nat :: k < |a| ==> c[k] == WordOp(AND, a[k], Complement(b[k]))
    ensures Clean(c, n) && Elements(c, n) == Elements(a, n) - Elements(b, n)
  {
    forall i: nat ensures Member(c, i) <==> Member(a, i) && !Member(b, i) {
      SplitIndex(i);
      if i / 32 < |a| {
        SubtractedBit(a[i / 32], b[i / 32], i % 32);
      }
    }
  }

  lemma SubtractedBit(x: nat, y: nat, c: nat)
    requires y < WORD && c < 32
    ensures BitAt(WordOp(AND, x, Complement(y)), c) == 1 <==> BitAt(x, c) == 1 && BitAt(y, c) == 0
  {
    OpBit(AND, x, Complement(y), c);
    NotBit(y, c);
  }

  /** Vectors with the same members are the same. */
  lemma SameMembers(a: seq<nat>, b: seq<nat>, n: nat)
    requires Clean(a, n) && Clean(b, n) && Elements(a, n) == Elements(b, n)
    ensures a == b
  {
    WordIsPower();
    forall k: nat | k < |a| ensures a[k] == b[k] {
      forall c: nat | c < 32 ensures BitAt(a[k], c) == BitAt(b[k], c) {
        JoinIndex(k, c);
        assert Member(a, 32 * k + c) <==> 32 * k + c in Elements(a, n);
        assert Member(b, 32 * k + c) <==> 32 * k + c in Elements(b, n);
      }
      SameBits(a[k], b[k], 32);
    }
  }

  class BitVector {
    const size: nat
    const words: array<nat>

    ghost predicate Valid()
      reads this, words
    {
      Clean(words[..], size)
    }

    ghost function Contents(): set<nat>
      reads this, words
    {
      Elements(words[..], size)
    }

    constructor (n: nat)
      requires 0 < n
      ensures Valid() && size == n && Contents() == {} && fresh(words)
    {
      size := n;
      words := new nat[WordsFor(n)](_ => 0);
      new;
      forall i: nat ensures !Member(words[..], i) {
        ZeroBit(i % 32);
      }
    }

    /** Whether bit i is set. */
    method Test(i: nat) returns (b: bool)
      requires Valid()
      ensures b <==> i in Contents()
    {
      if i >= size {
        return false;
      }
      WordThere(size, i);
      TestBit(words[i / 32], i % 32);
      b := WordOp(AND, words[i / 32], Power2(i % 32)) != 0;
    }

    /** Put a word in its place, with bit b set to v. */
    method Put(i: nat, w: nat, ghost v: nat)
      requires Valid() && i < size && i / 32 < words.Length && w < WORD
      requires forall c: nat {:trigger BitAt(w, c)} ::
        c < 32 ==> BitAt(w, c) == if c == i % 32 then v else BitAt(words[i / 32], c)
      modifies words
      ensures Valid() && Contents() == if v == 1 then old(Contents()) + {i} else old(Contents()) - {i}
    {
      SplitIndex(i);
      BitPut(words[..], i / 32, i % 32, w, v, size);
      ghost var before := words[..];
      words[i / 32] := w;
      assert words[..] == before[i / 32 := w];
    }

    /** Set bit i; numbers beyond the size are ignored. */
    method Set(i: nat)
      requires Valid()
      modifies words
      ensures Valid() && Contents() == old(Contents()) + (if i < size then {i} else {})
    {
      if i >= size {
        return;
      }
      WordThere(size, i);
      var w := WordOp(OR, words[i / 32], Power2(i % 32));
      forall c: nat | c < 32 ensures BitAt(w, c) == if c == i % 32 then 1 else BitAt(words[i / 32], c) {
        OpBit(OR, words[i / 32], Power2(i % 32), c);
        PowerBit(i % 32, c);
      }
      Put(i, w, 1);
    }

    /** Set bit i if it is not set in another vector. */
    method ConditionalSet(other: BitVector, i: nat)
      requires Valid() && other.Valid()
      modifies words
      ensures Valid()
      ensures Contents() == old(Contents()) +
        (if i < size && i < other.size && i !in old(other.Contents()) then {i} else {})
    {
      if i >= size || i >= other.size {
        return;
      }
      var b := other.Test(i);
      if !b {
        Set(i);
      }
    }

    /** Clear bit i. */
    method Unset(i: nat)
      requires Valid()
      modifies words
      ensures Valid() && Contents() == old(Contents()) - {i}
    {
      if i >= size {
        return;
      }
      WordThere(size, i);
      PowerBound(i % 32);
      var w := WordOp(AND, words[i / 32], Complement(Power2(i % 32)));
      forall c: nat | c < 32 ensures BitAt(w, c) == if c == i % 32 then 0 else BitAt(words[i / 32], c) {
        OpBit(AND, words[i / 32], Complement(Power2(i % 32)), c);
        NotBit(Power2(i % 32), c);
        PowerBit(i % 32, c);
      }
      Put(i, w, 0);
    }

    /** Add the members of another vector. */
    method Union(other: BitVector)
      requires Valid() && other.Valid() && other.size == size
      modifies words
      ensures Valid() && Contents() == old(Contents()) + old(other.Contents())
    {
      ghost var a, b := words[..], other.words[..];
      for s := 0 to words.Length
        invariant forall k: nat :: k < |a| ==> words[k] == if k < s then WordOp(OR, a[k], b[k]) else a[k]
        invariant forall k: nat :: s <= k < |b| ==> other.words[k] == b[k]
      {
        words[s] := WordOp(OR, words[s], other.words[s]);
      }
      CombinedClean(OR, a, b, words[..], size);
      forall i: nat | i < size ensures Member(words[..], i) <==> Member(a, i) || Member(b, i) {
        Combined(OR, a, b, words[..], size, i);
      }
    }

    /** Keep the members that another vector has, too. */
    method Intersect(other: BitVector)
      requires Valid() && other.Valid() && other.size == size
      modifies words
      ensures Valid() && Contents() == old(Contents()) * old(other.Contents())
    {
      ghost var a, b := words[..], other.words[..];
      for s := 0 to words.Length
        invariant forall k: nat :: k < |a| ==> words[k] == if k < s then WordOp(AND, a[k], b[k]) else a[k]
        invariant forall k: nat :: s <= k < |b| ==> other.words[k] == b[k]
      {
        words[s] := WordOp(AND, words[s], other.words[s]);
      }
      CombinedClean(AND, a, b, words[..], size);
      forall i: nat | i < size ensures Member(words[..], i) <==> Member(a, i) && Member(b, i) {
        Combined(AND, a, b, words[..], size, i);
      }
    }

    /** Take away the members of another vector. */
    method Subtract(other: BitVector)
      requires Valid() && other.Valid() && other.size == size
      modifies words
      ensures Valid() && Contents() == old(Contents()) - old(other.Contents())
    {
      ghost var a, b := words[..], other.words[..];
      for s := 0 to words.Length
        invariant forall k: nat :: k < |a| ==> words[k] == if k < s then WordOp(AND, a[k], Complement(b[k])) else a[k]
        invariant forall k: nat :: s <= k < |b| ==> other.words[k] == b[k]
      {
        words[s] := WordOp(AND, words[s], Complement(other.words[s]));
      }
      Subtracted(a, b, words[..], size);
    }

    /** Whether two vectors of the same size have the same members. */
    method Equal(other: BitVector) returns (same: bool)
      requires Valid() && other.Valid() && other.size == size
      ensures same <==> Contents() == other.Contents()
    {
      for s := 0 to words.Length
        invariant words[..s] == other.words[..s]
      {
        if words[s] != other.words[s] {
          if Contents() == other.Contents() {
            SameMembers(words[..], other.words[..], size);
          }
          return false;
        }
      }
      assert words[..] == words[..words.Length] && other.words[..] == other.words[..words.Length];
      return true;
    }

    /** The members, in increasing order, found four bits at a time. */
    method EachBit() returns (out: seq<nat>)
      requires Valid()
      ensures Increasing(out) && forall i: nat :: i in out <==> i in Contents()
    {
      out := [];
      for i := 0 to words.Length
        invariant Lists(out, words[..], 32 * i)
      {
        var done;
        out, done := EachBitOf(i, out);
        if done {
          return;
        }
      }
      EnoughWords(size);
      ListsAll(out, words[..], 32 * words.Length, size);
    }

    /** The members in one word, up to the size. */
    method EachBitOf(i: nat, out0: seq<nat>) returns (out: seq<nat>, done: bool)
      requires Valid() && i < words.Length && Lists(out0, words[..], 32 * i)
      ensures if done then Lists(out, words[..], size) && forall i: nat :: i in out <==> i in Contents()
        else Lists(out, words[..], 32 * (i + 1))
    {
      out := out0;
      var j: nat := 0;
      while j < 31
        invariant j <= 32 && j % 4 == 0 && Lists(out, words[..], 32 * i + j)
      {
        NextNibble(j);
        if j + 32 * i >= size {
          ListsAll(out, words[..], j + 32 * i, size);
          return out, true;
        }
        ListsNext(out, words[..], i, j);
        var nibble := Nibble(words[i], j);
        out := out + From(NibbleList(nibble), 32 * i + j);
        j := j + 4;
      }
      return out, false;
    }

    /** The number of members. */
    method Count() returns (n: nat)
      requires Valid()
      ensures n == |Contents()|
    {
      n := 0;
      ghost var out: seq<nat> := [];
      for i := 0 to words.Length
        invariant Lists(out, words[..], 32 * i) && n == |out|
      {
        if words[i] != 0 {
          var done;
          n, done, out := CountOf(i, n, out);
          if done {
            return;
          }
        } else {
          ListsSkip(out, words[..], i);
        }
      }
      EnoughWords(size);
      ListsAll(out, words[..], 32 * words.Length, size);
      ListCardinality(out, words[..], size);
    }

    /** The number of members up to one word, given that up to the word before. */
    method CountOf(i: nat, n0: nat, ghost out0: seq<nat>) returns (n: nat, done: bool, ghost out: seq<nat>)
      requires Valid() && i < words.Length && Lists(out0, words[..], 32 * i) && n0 == |out0|
      ensures done ==> n == |Contents()|
      ensures !done ==> Lists(out, words[..], 32 * (i + 1)) && n == |out|
    {
      n, out := n0, out0;
      var j: nat := 0;
      while j < 31
        invariant j <= 32 && j % 4 == 0 && Lists(out, words[..], 32 * i + j) && n == |out|
      {
        NextNibble(j);
        if j + 32 * i >= size {
          ListsAll(out, words[..], j + 32 * i, size);
          ListCardinality(out, words[..], size);
          return n, true, out;
        }
        ListsNext(out, words[..], i, j);
        var nibble := Nibble(words[i], j);
        out := out + From(NibbleList(nibble), 32 * i + j);
        n := n + NibbleCount(nibble);
        j := j + 4;
      }
      return n, false, out;
    }

    /** The least member, or -1. */
    method FirstBit() returns (r: int)
      requires Valid()
      ensures r == -1 ==> Contents() == {}
      ensures r != -1 ==> 0 <= r && r in Contents() && forall i: nat :: i in Contents() ==> r <= i
    {
      var table := ByteTable();
      for i := 0 to words.Length
        invariant Lists([], words[..], 32 * i)
      {
        var w := words[i];
        if w != 0 {
          var b := LowestBit(w, table);
          r := b + 32 * i;
          FirstIs(words[..], size, i, b);
          return;
        }
        ListsSkip([], words[..], i);
      }
      EnoughWords(size);
      ListsAll([], words[..], 32 * words.Length, size);
      return -1;
    }
  }

  // ----- Enumeration -----

  ghost predicate Increasing(s: seq<nat>) {
    forall i: nat, j: nat {:trigger Below(s, i, j)} :: i < j < |s| ==> Below(s, i, j)
  }

  predicate Below(s: seq<nat>, i: nat, j: nat)
    requires i < |s| && j < |s|
  {
    s[i] < s[j]
  }

  /** out has the members below k, in increasing order. */
  ghost predicate Lists(out: seq<nat>, words: seq<nat>, k: nat) {
    && Increasing(out)
    && (forall i: nat {:trigger Member(words, i)} {:trigger i in out} :: i in out <==> i < k && Member(words, i))
  }

  lemma EnoughWords(n: nat)
    ensures n <= 32 * WordsFor(n)
  {
  }

  /** Beyond the size there are no members. */
  lemma ListsAll(out: seq<nat>, words: seq<nat>, k: nat, n: nat)
    requires Lists(out, words, k) && n <= k && Clean(words, n)
    ensures Lists(out, words, n)
    ensures forall i: nat :: i in out <==> i in Elements(words, n)
  {
  }

  /** The four bits of w from position j on. */
  function Nibble(w: nat, j: nat): nat {
    ShiftRight(WordOp(AND, w, 15 * Power2(j)), j)
  }

  lemma {:induction false} MaskBit(m: nat, j: nat, c: nat)
    ensures BitAt(m * Power2(j), j + c) == BitAt(m, c)
    decreases j
  {
    if j > 0 {
      assert m * Power2(j) == 2 * (m * Power2(j - 1));
      MaskBit(m, j - 1, c);
    }
  }

  lemma NibbleBits(w: nat, j: nat)
    requires j + 4 <= 32
    ensures Nibble(w, j) < 16
    ensures forall c: nat :: c < 4 ==> BitAt(Nibble(w, j), c) == BitAt(w, j + c)
  {
    NibbleBound(w, j);
    forall c: nat | c < 4 ensures BitAt(Nibble(w, j), c) == BitAt(w, j + c) {
      NibbleBit(w, j, c);
    }
  }

  lemma NibbleBound(w: nat, j: nat)
    ensures Nibble(w, j) < 16
  {
    AndBelow(w, 15 * Power2(j), 32);
    SixteenTimes(j);
    ShiftBound(WordOp(AND, w, 15 * Power2(j)), j, 4);
  }

  lemma SixteenTimes(j: nat)
    ensures Power2(j + 4) == 16 * Power2(j) && Power2(4) == 16
  {
    assert Power2(j + 1) == 2 * Power2(j) && Power2(j + 2) == 2 * Power2(j + 1);
    assert Power2(j + 3) == 2 * Power2(j + 2) && Power2(j + 4) == 2 * Power2(j + 3);
  }

  lemma NibbleBit(w: nat, j: nat, c: nat)
    requires c < 4 && j + c < 32
    ensures BitAt(Nibble(w, j), c) == BitAt(w, j + c)
  {
    var mask := 15 * Power2(j);
    ShiftBit(WordOp(AND, w, mask), j, c);
    OpBit(AND, w, mask, j + c);
    MaskBit(15, j, c);
    FifteenBits(c);
  }

  lemma FifteenBits(c: nat)
    requires c < 4
    ensures BitAt(15, c) == 1
  {
    assert BitAt(15, 1) == 1 && BitAt(15, 2) == BitAt(7, 1) && BitAt(15, 3) == BitAt(7, 2)
      && BitAt(7, 2) == BitAt(3, 1);
  }

  /** The bits of a number below 16. */
  function NibbleList(n: nat): seq<nat> {
    match n
    case 1 => [0]
    case 2 => [1]
    case 3 => [0, 1]
    case 4 => [2]
    case 5 => [0, 2]
    case 6 => [1, 2]
    case 7 => [0, 1, 2]
    case 8 => [3]
    case 9 => [0, 3]
    case 10 => [1, 3]
    case 11 => [0, 1, 3]
    case 12 => [2, 3]
    case 13 => [0, 2, 3]
    case 14 => [1, 2, 3]
    case 15 => [0, 1, 2, 3]
    case _ => []
  }

  function NibbleCount(n: nat): nat {
    match n
    case 0 => 0
    case 1 => 1
    case 2 => 1
    case 4 => 1
    case 8 => 1
    case 3 => 2
    case 5 => 2
    case 6 => 2
    case 9 => 2
    case 10 => 2
    case 12 => 2
    case 15 => 4
    case _ => 3
  }

  lemma FourBits(n: nat)
    ensures BitAt(n, 0) == n % 2 && BitAt(n, 1) == n / 2 % 2 && BitAt(n, 2) == n / 2 / 2 % 2
      && BitAt(n, 3) == n / 2 / 2 / 2 % 2
  {
    var a := n / 2;
    var b := a / 2;
    assert BitAt(n, 1) == BitAt(a, 0);
    assert BitAt(n, 2) == BitAt(a, 1) == BitAt(b, 0);
    assert BitAt(n, 3) == BitAt(a, 2) == BitAt(b, 1) == BitAt(b / 2, 0);
  }

  lemma NibbleTable(n: nat)
    requires n < 16
    ensures |NibbleList(n)| == NibbleCount(n) && Increasing(NibbleList(n))
    ensures 0 in NibbleList(n) <==> n % 2 == 1
    ensures 1 in NibbleList(n) <==> n / 2 % 2 == 1
    ensures 2 in NibbleList(n) <==> n / 2 / 2 % 2 == 1
    ensures 3 in NibbleList(n) <==> n / 2 / 2 / 2 % 2 == 1
    ensures forall c: nat :: c in NibbleList(n) ==> c < 4
  {
  }

  lemma NibbleLists(n: nat)
    requires n < 16
    ensures |NibbleList(n)| == NibbleCount(n) && Increasing(NibbleList(n))
    ensures forall c: nat :: c in NibbleList(n) <==> c < 4 && BitAt(n, c) == 1
  {
    FourBits(n);
    NibbleTable(n);
  }

  function From(s: seq<nat>, k: nat): (r: seq<nat>)
    ensures |r| == |s| && forall i: nat :: i < |s| ==> r[i] == s[i] + k
  {
    seq(|s|, i requires 0 <= i < |s| => s[i] + k)
  }

  lemma ListsStep(out: seq<nat>, words: seq<nat>, k: nat)
    requires Lists(out, words, k) && k / 32 < |words| && k % 4 == 0 && k % 32 <= 28
    ensures var n := Nibble(words[k / 32], k % 32);
      Lists(out + From(NibbleList(n), k), words, k + 4) && |NibbleList(n)| == NibbleCount(n)
  {
    var n := Nibble(words[k / 32], k % 32);
    NibbleBits(words[k / 32], k % 32);
    NibbleLists(n);
    var more := From(NibbleList(n), k);
    forall i: nat ensures i in more <==> k <= i < k + 4 && Member(words, i) {
      FromMembers(NibbleList(n), k, i);
      if k <= i < k + 4 {
        JoinIndex(k / 32, k % 32 + (i - k));
        assert BitAt(n, i - k) == BitAt(words[k / 32], k % 32 + (i - k));
      }
    }
    FromIncreasing(NibbleList(n), k);
    AppendIncreasing(out, more, k);
  }

  lemma FromMembers(s: seq<nat>, k: nat, i: nat)
    ensures i in From(s, k) <==> k <= i && i - k in s
  {
    if k <= i && i - k in s {
      var c: nat :| c < |s| && s[c] == i - k;
      assert From(s, k)[c] == i;
    }
  }

  lemma FromIncreasing(s: seq<nat>, k: nat)
    requires Increasing(s)
    ensures Increasing(From(s, k))
  {
    forall i: nat, j: nat | i < j < |s| ensures Below(From(s, k), i, j) {
      assert Below(s, i, j);
    }
  }

  lemma AppendIncreasing(a: seq<nat>, b: seq<nat>, k: nat)
    requires Increasing(a) && Increasing(b) && (forall x: nat :: x in a ==> x < k)
      && (forall x: nat :: x in b ==> k <= x)
    ensures Increasing(a + b)
  {
    forall i: nat, j: nat | i < j < |a + b| ensures Below(a + b, i, j) {
      if j < |a| {
        assert Below(a, i, j);
      } else if |a| <= i {
        assert Below(b, i - |a|, j - |a|);
      } else {
        assert a[i] in a && b[j - |a|] in b;
      }
    }
  }

  lemma NextNibble(j: nat)
    requires j % 4 == 0 && j < 31
    ensures (j + 4) % 4 == 0 && j <= 28
  {
  }

  lemma ListsNext(out: seq<nat>, words: seq<nat>, i: nat, j: nat)
    requires i < |words| && j % 4 == 0 && j <= 28 && Lists(out, words, 32 * i + j)
    ensures var n := Nibble(words[i], j);
      Lists(out + From(NibbleList(n), 32 * i + j), words, 32 * i + (j + 4)) && |NibbleList(n)| == NibbleCount(n)
  {
    JoinIndex(i, j);
    ListsStep(out, words, 32 * i + j);
  }

  lemma ListsSkip(out: seq<nat>, words: seq<nat>, i: nat)
    requires Lists(out, words, 32 * i) && i < |words| && words[i] == 0
    ensures Lists(out, words, 32 * (i + 1))
  {
    forall m: nat | 32 * i <= m < 32 * (i + 1) ensures !Member(words, m) {
      SplitIndex(m);
      ZeroBit(m % 32);
    }
  }

  ghost function Elems(s: seq<nat>): set<nat> {
    set i: nat | i in s
  }

  lemma ListCardinality(out: seq<nat>, words: seq<nat>, k: nat)
    requires Lists(out, words, k)
    ensures |out| == |Elements(words, k)|
  {
    assert Elements(words, k) == Elems(out);
    IncreasingCardinality(out);
  }

  lemma {:induction false} IncreasingCardinality(out: seq<nat>)
    requires Increasing(out)
    ensures |Elems(out)| == |out|
  {
    if out != [] {
      var rest, last := out[..|out| - 1], out[|out| - 1];
      forall i: nat, j: nat | i < j < |rest| ensures Below(rest, i, j) {
        assert Below(out, i, j);
      }
      IncreasingCardinality(rest);
      forall i: nat | i < |rest| ensures rest[i] != last {
        assert Below(out, i, |out| - 1);
      }
      assert out == rest + [last] && last !in rest;
      assert Elems(out) == Elems(rest) + {last};
    }
  }

  // ----- The first bit -----

  /** A table of logarithms: entry 2^i is i, for bytes of a single bit. */
  method ByteTable() returns (table: seq<nat>)
    ensures IsByteTable(table)
  {
    table := seq(257, _ => 0);
    for i := 0 to 8
      invariant |table| == 257 && forall j: nat :: j < i ==> Power2(j) < 257 && table[Power2(j)] == j
    {
      SmallPowers();
      forall j: nat | j < i ensures Power2(j) < Power2(i) {
        PowerLess(j, i);
      }
      PowerLess(i, 8);
      table := table[Power2(i) := i];
    }
  }

  lemma SmallPowers()
    ensures Power2(8) == 0x100 && Power2(16) == 0x1_0000 && Power2(24) == 0x100_0000
  {
    assert Power2(8) == 256;
    assert Power2(16) == 0x1_0000;
  }

  /** Byte number q of a word. */
  function Byte(w: nat, q: nat): nat {
    WordOp(AND, ShiftRight(w, 8 * q), 0xff)
  }

  lemma {:induction false} ShiftPower(b: nat, j: nat)
    requires j <= b
    ensures ShiftRight(Power2(b), j) == Power2(b - j)
    decreases j
  {
    if j > 0 {
      assert Power2(b) / 2 == Power2(b - 1);
      ShiftPower(b - 1, j - 1);
    }
  }

  lemma ByteOfPower(b: nat, q: nat)
    requires 8 * q <= b < 8 * q + 8 && b < 32
    ensures Byte(Power2(b), q) == Power2(b - 8 * q)
  {
    ShiftPower(b, 8 * q);
    SmallPowers();
    PowerLess(b - 8 * q, 8);
    PowerBound(b - 8 * q);
    WordIsPower();
    AndMask(Power2(b - 8 * q), 8, 32);
    SmallMod(Power2(b - 8 * q), 0x100);
  }

  lemma SmallMod(x: nat, m: nat)
    requires x < m
    ensures x % m == x
  {
  }

  ghost predicate IsByteTable(table: seq<nat>) {
    |table| == 257 && forall i: nat :: i < 8 ==> Power2(i) < 257 && table[Power2(i)] == i
  }

  lemma TableAt(table: seq<nat>, b: nat)
    requires IsByteTable(table) && b < 32
    ensures Byte(Power2(b), b / 8) < |table| && table[Byte(Power2(b), b / 8)] == b - 8 * (b / 8)
  {
    ByteOfPower(b, b / 8);
  }

  lemma MaskIsPower(w: nat)
    requires 0 < w < WORD
    ensures WordOp(AND, w, WORD - w) == Power2(LowBit(w)) && LowBit(w) < 32
  {
    WordIsPower();
    IsolateLowBit(w, 32);
    LowBitBound(w, 32);
  }

  /** The byte with the only bit of a word tells the place of the bit. */
  lemma BytePlace(mask: nat, low: nat)
    requires mask == Power2(low) && low < 32
    ensures low / 8 == if mask >= 0x100_0000 then 3 else if mask >= 0x1_0000 then 2 else if mask >= 0x100 then 1 else 0
  {
    PowerPlace(low);
  }

  /** The position of the lowest bit that is set, byte by byte. */
  method LowestBit(w: nat, table: seq<nat>) returns (b: nat)
    requires 0 < w < WORD && IsByteTable(table)
    ensures b == LowBit(w)
  {
    var mask := WordOp(AND, w, WORD - w);
    MaskIsPower(w);
    b := PlaceOf(mask, LowBit(w), table);
  }

  method PlaceOf(mask: nat, ghost low: nat, table: seq<nat>) returns (b: nat)
    requires mask == Power2(low) && low < 32 && IsByteTable(table)
    ensures b == low
  {
    BytePlace(mask, low);
    TableAt(table, low);
    if mask >= 0x1_0000 {
      if mask >= 0x100_0000 {
        b := table[Byte(mask, 3)] + 24;
      } else {
        b := table[Byte(mask, 2)] + 16;
      }
    } else {
      if mask >= 0x100 {
        b := table[Byte(mask, 1)] + 8;
      } else {
        b := table[Byte(mask, 0)];
      }
    }
  }

  lemma PowerPlace(b: nat)
    requires b < 32
    ensures Power2(b) >= 0x100 <==> b >= 8
    ensures Power2(b) >= 0x1_0000 <==> b >= 16
    ensures Power2(b) >= 0x100_0000 <==> b >= 24
  {
    SmallPowers();
    if b < 24 { PowerLess(b, 24); } else if b > 24 { PowerLess(24, b); }
    if b < 16 { PowerLess(b, 16); } else if b > 16 { PowerLess(16, b); }
    if b < 8 { PowerLess(b, 8); } else if b > 8 { PowerLess(8, b); }
  }

  lemma FirstIs(words: seq<nat>, n: nat, i: nat, b: nat)
    requires Clean(words, n) && i < |words| && 0 < words[i] && b == LowBit(words[i])
    requires Lists([], words, 32 * i)
    ensures b + 32 * i in Elements(words, n) && forall m: nat :: m in Elements(words, n) ==> b + 32 * i <= m
  {
    WordIsPower();
    LowBitBound(words[i], 32);
    LowBitSet(words[i]);
    JoinIndex(i, b);
    assert Member(words, 32 * i + b);
    forall m: nat | Member(words, m) ensures b + 32 * i <= m {
      SplitIndex(m);
    }
  }
}
