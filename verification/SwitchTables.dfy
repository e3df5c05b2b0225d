/** The jump table of a large bucket. */
module SwitchTables {
  import opened Bits
  import opened TableAddresses
  import opened Switches

  /** The 32-bit unsigned reading of an int. */
  function Unsigned(x: int): nat
    requires IsInt(x)
  {
    if x < 0 then x + WORD else x
  }

  ghost predicate AllInts(v: seq<int>) {
    forall i: nat :: i < |v| ==> IsInt(v[i])
  }

  /** The table entries for v[i..], when the counter of the fill loop stands at k. */
  ghost function EntriesFrom(v: seq<int>, labels: seq<nat>, deflab: nat, i: nat, k: nat): seq<nat>
    requires |v| == |labels| && i <= |v| && AllInts(v)
    decreases |v| - i
  {
    if i == |v| then []
    else
      var gap := if k < Unsigned(v[i]) then Unsigned(v[i]) - k else 0;
      Repeat(deflab, gap) + [labels[i]] + EntriesFrom(v, labels, deflab, i + 1, (k + gap + 1) % WORD)
  }

  function Repeat(x: nat, n: nat): (s: seq<nat>)
    ensures |s| == n && forall i: nat :: i < n ==> s[i] == x
  {
    seq(n, _ => x)
  }

  /** The table for the cases v: labels in the order of their values, and the default label in the
      gaps, as far as the unsigned counter sees them. */
  ghost function Entries(v: seq<int>, labels: seq<nat>, deflab: nat): seq<nat>
    requires 0 < |v| == |labels| && AllInts(v)
  {
    EntriesFrom(v, labels, deflab, 0, Unsigned(v[0]))
  }

  /** Fill the table. */
  method FillTable(v: seq<int>, labels: seq<nat>, deflab: nat) returns (table: seq<nat>)
    requires 0 < |v| == |labels| && AllInts(v)
    ensures table == Entries(v, labels, deflab)
  {
    table := [];
    var k: nat := Unsigned(v[0]);
    for i := 0 to |v|
      invariant table + EntriesFrom(v, labels, deflab, i, k) == Entries(v, labels, deflab)
    {
      ghost var table0, k0 := table, k;
      table, k := FillGap(table, deflab, k, Unsigned(v[i]));
      table := table + [labels[i]];
      NextEntries(v, labels, deflab, i, k0, k - k0);
      Regroup(table0, Repeat(deflab, k - k0), [labels[i]], EntriesFrom(v, labels, deflab, i + 1, (k + 1) % WORD));
      k := (k + 1) % WORD;
    }
    assert table + [] == table;
  }

  /** Fill up to the next case. */
  method FillGap(table0: seq<nat>, deflab: nat, k0: nat, upto: nat) returns (table: seq<nat>, k: nat)
    ensures k == if k0 < upto then upto else k0
    ensures table == table0 + Repeat(deflab, k - k0)
  {
    table, k := table0, k0;
    while k < upto
      invariant k0 <= k && (k <= upto || k == k0)
      invariant table == table0 + Repeat(deflab, k - k0)
    {
      assert Repeat(deflab, k + 1 - k0) == Repeat(deflab, k - k0) + [deflab];
      table := table + [deflab];
      k := k + 1;
    }
  }

  lemma Regroup(a: seq<nat>, b: seq<nat>, c: seq<nat>, d: seq<nat>)
    ensures a + b + c + d == a + (b + c + d)
  {
  }

  /** The values of a sorted case list jump over -1. */
  ghost predicate Skips(v: seq<int>) {
    exists i: nat :: SkipsAt(v, i)
  }

  predicate SkipsAt(v: seq<int>, i: nat) {
    0 < i < |v| && v[i - 1] < -1 && 0 <= v[i]
  }

  /** What the table should hold for the value x. */
  function LabelOf(v: seq<int>, labels: seq<nat>, deflab: nat, x: int): nat
    requires |v| == |labels|
  {
    if x in v then labels[IndexOf(v, x)] else deflab
  }

  function IndexOf(v: seq<int>, x: int): (i: nat)
    requires x in v
    ensures i < |v| && v[i] == x && x !in v[..i]
  {
    if v[0] == x then 0 else 1 + IndexOf(v[1..], x)
  }

  lemma IndexUnique(v: seq<int>, x: int, i: nat)
    requires StrictlyAscending(v) && i < |v| && v[i] == x
    ensures x in v && IndexOf(v, x) == i
  {
    SameOrder(v, i, IndexOf(v, x));
  }

  lemma NotBetween(v: seq<int>, i: nat, x: int)
    requires StrictlyAscending(v) && 0 < i < |v| && v[i - 1] < x < v[i]
    ensures x !in v
  {
    if x in v {
      SameOrder(v, i - 1, IndexOf(v, x));
      SameOrder(v, i, IndexOf(v, x));
    }
  }

  /** The counter stands at the value after v[i - 1]. */
  predicate CounterAt(v: seq<int>, i: nat, k: nat)
    requires AllInts(v)
  {
    0 < i <= |v| && k == (Unsigned(v[i - 1]) + 1) % WORD
  }

  /** A gap that does not jump over -1 is seen by the unsigned counter. */
  lemma GapSeen(v: seq<int>, i: nat, k: nat)
    requires AllInts(v) && StrictlyAscending(v) && i < |v| && CounterAt(v, i, k)
    ensures var gap := if k < Unsigned(v[i]) then Unsigned(v[i]) - k else 0;
      if SkipsAt(v, i) then gap == 0 else gap == v[i] - v[i - 1] - 1 && CounterAt(v, i + 1, (k + gap + 1) % WORD)
  {
    SameOrder(v, i - 1, i);
  }

  /** Up to the first jump over -1, the table holds for each value what it should. */
  lemma {:induction false} EntriesRight(v: seq<int>, labels: seq<nat>, deflab: nat, i: nat, k: nat, x: int)
    requires |v| == |labels| && AllInts(v) && StrictlyAscending(v) && CounterAt(v, i, k)
    requires forall j: nat :: i <= j && SkipsAt(v, j) ==> x <= v[j - 1]
    requires v[i - 1] < x <= v[|v| - 1]
    ensures x - v[i - 1] - 1 < |EntriesFrom(v, labels, deflab, i, k)|
    ensures EntriesFrom(v, labels, deflab, i, k)[x - v[i - 1] - 1] == LabelOf(v, labels, deflab, x)
    decreases |v| - i
  {
    GapSeen(v, i, k);
    if x < v[i] {
      NotBetween(v, i, x);
    } else if x == v[i] {
      IndexUnique(v, x, i);
    } else {
      EntriesRight(v, labels, deflab, i + 1, (k + v[i] - v[i - 1]) % WORD, x);
    }
  }

  /** At the first jump over -1 the table holds a case label for a value that is not a case. */
  lemma {:induction false} EntriesWrong(v: seq<int>, labels: seq<nat>, deflab: nat, i: nat, k: nat, g: nat)
    requires |v| == |labels| && AllInts(v) && StrictlyAscending(v) && CounterAt(v, i, k)
    requires i <= g && SkipsAt(v, g)
    ensures v[i - 1] <= v[g - 1]
    ensures v[g - 1] - v[i - 1] < |EntriesFrom(v, labels, deflab, i, k)|
    ensures EntriesFrom(v, labels, deflab, i, k)[v[g - 1] - v[i - 1]] == labels[g]
    decreases |v| - i
  {
    GapSeen(v, i, k);
    if i < g {
      SameOrder(v, i, g - 1);
      EntriesWrong(v, labels, deflab, i + 1, (k + v[i] - v[i - 1]) % WORD, g);
    }
  }

  /** The table cannot be reached for some value between the lowest and the highest case. */
  predicate Unreachable(v: seq<int>) {
    0 < |v| && Far(v[0], v[|v| - 1])
  }

  /** The table has an entry for x. */
  ghost predicate HasEntry(v: seq<int>, labels: seq<nat>, deflab: nat, x: int)
    requires 0 < |v| == |labels| && AllInts(v)
  {
    0 <= TableIndex(v[0], x) < |Entries(v, labels, deflab)|
  }

  /** What a jump through the table does for the value x. */
  ghost function Entry(v: seq<int>, labels: seq<nat>, deflab: nat, x: int): nat
    requires 0 < |v| == |labels| && AllInts(v) && HasEntry(v, labels, deflab, x)
  {
    Entries(v, labels, deflab)[TableIndex(v[0], x)]
  }

  ghost predicate TableRight(v: seq<int>, labels: seq<nat>, deflab: nat)
    requires 0 < |v| == |labels| && AllInts(v)
  {
    forall x: int {:trigger RightAt(v, labels, deflab, x)} ::
      v[0] <= x <= v[|v| - 1] ==> RightAt(v, labels, deflab, x)
  }

  ghost predicate RightAt(v: seq<int>, labels: seq<nat>, deflab: nat, x: int)
    requires 0 < |v| == |labels| && AllInts(v)
  {
    HasEntry(v, labels, deflab, x) && Entry(v, labels, deflab, x) == LabelOf(v, labels, deflab, x)
  }

  /** The first entry is that of the lowest case. */
  lemma FirstEntry(v: seq<int>, labels: seq<nat>, deflab: nat)
    requires 0 < |v| == |labels| && AllInts(v)
    ensures CounterAt(v, 1, (Unsigned(v[0]) + 1) % WORD)
    ensures Entries(v, labels, deflab) == [labels[0]] + EntriesFrom(v, labels, deflab, 1, (Unsigned(v[0]) + 1) % WORD)
  {
  }

  lemma TableRightAt(v: seq<int>, labels: seq<nat>, deflab: nat, x: int)
    requires 0 < |v| == |labels| && AllInts(v) && StrictlyAscending(v) && !Skips(v) && !Unreachable(v)
    requires v[0] <= x <= v[|v| - 1]
    ensures RightAt(v, labels, deflab, x)
  {
    FirstEntry(v, labels, deflab);
    IndexExact(v[0], v[|v| - 1], x);
    if x == v[0] {
      IndexUnique(v, x, 0);
    } else {
      EntriesRight(v, labels, deflab, 1, (Unsigned(v[0]) + 1) % WORD, x);
    }
  }

  /** The value behind the first that is jumped over takes a case label, and is no case. */
  lemma SkippedWrong(v: seq<int>, labels: seq<nat>, deflab: nat) returns (x: int)
    requires 0 < |v| == |labels| && AllInts(v) && StrictlyAscending(v) && deflab !in labels
    requires Skips(v) && !Unreachable(v)
    ensures v[0] <= x <= v[|v| - 1] && !RightAt(v, labels, deflab, x)
  {
    var g: nat :| SkipsAt(v, g);
    x := v[g - 1] + 1;
    FirstEntry(v, labels, deflab);
    EntriesWrong(v, labels, deflab, 1, (Unsigned(v[0]) + 1) % WORD, g);
    SameOrder(v, g, |v| - 1);
    NotBetween(v, g, x);
    IndexExact(v[0], v[|v| - 1], x);
  }

  /** A value that the table does not serve right. */
  lemma TableWrong(v: seq<int>, labels: seq<nat>, deflab: nat) returns (x: int)
    requires 0 < |v| == |labels| && AllInts(v) && StrictlyAscending(v) && deflab !in labels
    requires Skips(v) || Unreachable(v)
    ensures v[0] <= x <= v[|v| - 1] && !RightAt(v, labels, deflab, x)
  {
    if Unreachable(v) {
      SameOrder(v, 0, |v| - 1);
      x := IndexAstray(v[0], v[|v| - 1]);
    } else {
      x := SkippedWrong(v, labels, deflab);
    }
  }

  /** The table is right, for all the values it serves, exactly when the cases do not jump over -1
      and their entries can all be reached. */
  lemma TableRightIff(v: seq<int>, labels: seq<nat>, deflab: nat)
    requires 0 < |v| == |labels| && AllInts(v) && StrictlyAscending(v) && deflab !in labels
    ensures TableRight(v, labels, deflab) <==> !Skips(v) && !Unreachable(v)
  {
    if Skips(v) || Unreachable(v) {
      var x := TableWrong(v, labels, deflab);
    } else {
      forall x: int | v[0] <= x <= v[|v| - 1] ensures RightAt(v, labels, deflab, x) {
        TableRightAt(v, labels, deflab, x);
      }
    }
  }

  /** The cases -2, 0, 1, 2, which are dense enough for a table: -1, which is no case, takes the
      branch of case 0, and 0 takes the default branch. */
  lemma SkippedExample(v: seq<int>, labels: seq<nat>, deflab: nat)
    requires |v| == |labels| == 4 && v[0] == -2 && v[1] == 0 && v[2] == 1 && v[3] == 2
    ensures AllInts(v) && HasEntry(v, labels, deflab, -1) && HasEntry(v, labels, deflab, 0)
    ensures Entry(v, labels, deflab, -1) == labels[1] && Entry(v, labels, deflab, 0) == deflab
  {
    FirstEntry(v, labels, deflab);
    IndexExact(-2, 2, -1);
    IndexExact(-2, 2, 0);
    SkippedEntries(v, labels, deflab, 1, WORD - 1);
  }

  /** The entries when the counter stands at -1, behind -2. */
  lemma SkippedEntries(v: seq<int>, labels: seq<nat>, deflab: nat, i: nat, k: nat)
    requires |v| == |labels| == 4 && AllInts(v) && i == 1 && k == WORD - 1 && v[1] == 0 && v[2] == 1
    ensures var e := EntriesFrom(v, labels, deflab, i, k); |e| >= 2 && e[0] == labels[1] && e[1] == deflab
  {
    NextEntries(v, labels, deflab, i, k, 0);
    NextEntries(v, labels, deflab, i + 1, (k + 1) % WORD, 1);
  }

  lemma NextEntries(v: seq<int>, labels: seq<nat>, deflab: nat, i: nat, k: nat, gap: nat)
    requires i < |v| == |labels| && AllInts(v) && gap == if k < Unsigned(v[i]) then Unsigned(v[i]) - k else 0
    ensures EntriesFrom(v, labels, deflab, i, k)
      == Repeat(deflab, gap) + [labels[i]] + EntriesFrom(v, labels, deflab, i + 1, (k + gap + 1) % WORD)
    ensures gap < |EntriesFrom(v, labels, deflab, i, k)|
    ensures EntriesFrom(v, labels, deflab, i, k)[0] == if gap == 0 then labels[i] else deflab
  {
  }
}
