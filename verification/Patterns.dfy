/** Patterns of the peephole optimizer: matching a line, and substituting variables. */
module Patterns {

  datatype Option<T> = None | Some(value: T)

  const MAXLINE := 100

  /** The texts of the variables %0 to %9. */
  type Vars = v: seq<Option<string>> | |v| == 10 witness [None, None, None, None, None, None, None, None, None, None]

  predicate IsDigit(c: char) {
    '0' <= c <= '9'
  }

  /** The pattern starts with a variable. */
  predicate IsVar(pat: string) {
    2 <= |pat| && pat[0] == '%' && IsDigit(pat[1])
  }

  /** A variable is written as a percent sign and a decimal digit, its number. */
  lemma VarIff(pat: string, d: nat)
    requires d < 10
    ensures IsVar(pat) && VarOf(pat) == d <==> 2 <= |pat| && pat[..2] == ['%', "0123456789"[d]]
  {
    assert 2 <= |pat| ==> pat[..2] == [pat[0], pat[1]];
  }

  function VarOf(pat: string): (d: nat)
    requires IsVar(pat)
    ensures d < 10
  {
    (pat[1] - '0') as nat
  }

  /** How many characters of ins come before the character behind the variable that starts pat. */
  function Span(ins: string, pat: string): (k: nat)
    requires IsVar(pat)
    ensures k <= |ins|
    ensures forall i: nat :: i < k ==> !StopsAt(ins[i], pat)
    ensures k < |ins| ==> StopsAt(ins[k], pat)
  {
    if ins == "" || StopsAt(ins[0], pat) then 0 else 1 + Span(ins[1..], pat)
  }

  predicate StopsAt(c: char, pat: string) {
    2 < |pat| && c == pat[2]
  }

  /** Match a line with a pattern, given the variables that have a text already. */
  function MatchLine(ins: string, pat: string, vars: Vars): Option<Vars>
    decreases |pat|
  {
    if ins == "" || pat == "" then
      if ins == pat then Some(vars) else None
    else if IsVar(pat) then
      var k, d := Span(ins, pat), VarOf(pat);
      if vars[d].None? then MatchLine(ins[k..], pat[2..], vars[d := Some(ins[..k])])
      else if vars[d].value == ins[..k] then MatchLine(ins[k..], pat[2..], vars)
      else None
    else if ins[0] == pat[0] then MatchLine(ins[1..], pat[1..], vars)
    else None
  }

  /** The variables of a pattern. */
  function Uses(pat: string): set<nat>
    decreases |pat|
  {
    if pat == "" then {} else if IsVar(pat) then {VarOf(pat)} + Uses(pat[2..]) else Uses(pat[1..])
  }

  predicate Bound(pat: string, vars: Vars) {
    forall d: nat :: d in Uses(pat) && d < 10 ==> vars[d].Some?
  }

  /** The pattern with the texts of its variables put in. */
  function Expand(pat: string, vars: Vars): string
    requires Bound(pat, vars)
    decreases |pat|
  {
    if pat == "" then ""
    else if IsVar(pat) then
      assert VarOf(pat) in Uses(pat);
      vars[VarOf(pat)].value + Expand(pat[2..], vars)
    else [pat[0]] + Expand(pat[1..], vars)
  }

  ghost predicate Extends(v: Vars, w: Vars) {
    forall d: nat :: d < 10 && v[d].Some? ==> w[d] == v[d]
  }

  /** Every variable's text goes up to the first occurrence of the character that the pattern has
      behind the variable, or to the end of the line; and no variable stands where the line has
      ended. */
  ghost predicate Delimited(pat: string, vars: Vars)
    requires Bound(pat, vars)
    decreases |pat|
  {
    if pat == "" then true
    else if IsVar(pat) then
      assert VarOf(pat) in Uses(pat);
      var rest := Expand(pat[2..], vars);
      && Expand(pat, vars) != "" && Delimited(pat[2..], vars)
      && (rest == "" || (2 < |pat| && rest[0] == pat[2]))
      && (2 < |pat| ==> pat[2] !in vars[VarOf(pat)].value)
    else Delimited(pat[1..], vars)
  }

  /** A match binds the pattern's variables to texts that give back the line. */
  lemma {:induction false} MatchExpands(ins: string, pat: string, vars: Vars)
    requires MatchLine(ins, pat, vars).Some?
    ensures var w := MatchLine(ins, pat, vars).value;
      Extends(vars, w) && Bound(pat, w) && Expand(pat, w) == ins && Delimited(pat, w)
    decreases |pat|
  {
    var w := MatchLine(ins, pat, vars).value;
    if ins == "" || pat == "" {
    } else if IsVar(pat) {
      var k, d := Span(ins, pat), VarOf(pat);
      if vars[d].None? {
        MatchExpands(ins[k..], pat[2..], vars[d := Some(ins[..k])]);
      } else {
        MatchExpands(ins[k..], pat[2..], vars);
      }
      assert w[d] == Some(ins[..k]);
      VarExpands(ins, pat, k, w);
    } else {
      MatchExpands(ins[1..], pat[1..], vars);
    }
  }

  lemma VarExpands(ins: string, pat: string, k: nat, w: Vars)
    requires IsVar(pat) && ins != "" && k == Span(ins, pat) && w[VarOf(pat)] == Some(ins[..k])
    requires Bound(pat[2..], w) && Expand(pat[2..], w) == ins[k..] && Delimited(pat[2..], w)
    ensures Bound(pat, w) && Expand(pat, w) == ins && Delimited(pat, w)
  {
    assert ins[..k] + ins[k..] == ins;
    assert ins[k..] != "" ==> ins[k..][0] == ins[k];
  }

  /** If suitable texts for the variables give the line, the match finds them. */
  lemma {:induction false} MatchFinds(ins: string, pat: string, vars: Vars, w: Vars)
    requires Extends(vars, w) && Bound(pat, w) && Expand(pat, w) == ins && Delimited(pat, w)
    ensures MatchLine(ins, pat, vars).Some? && Extends(MatchLine(ins, pat, vars).value, w)
    decreases |pat|
  {
    if ins == "" || pat == "" {
    } else if IsVar(pat) {
      var d := VarOf(pat);
      assert d in Uses(pat);
      var text, rest := w[d].value, Expand(pat[2..], w);
      SpanIs(ins, pat, text, rest, w);
      assert ins[..|text|] == text && ins[|text|..] == rest;
      if vars[d].None? {
        MatchFinds(rest, pat[2..], vars[d := Some(text)], w);
      } else {
        MatchFinds(rest, pat[2..], vars, w);
      }
    } else {
      assert ins[0] == pat[0] && ins[1..] == Expand(pat[1..], w);
      MatchFinds(ins[1..], pat[1..], vars, w);
    }
  }

  lemma SpanIs(ins: string, pat: string, text: string, rest: string, w: Vars)
    requires IsVar(pat) && ins == text + rest && Bound(pat, w) && rest == Expand(pat[2..], w)
    requires 2 < |pat| ==> pat[2] !in text
    requires rest == "" || (2 < |pat| && rest[0] == pat[2])
    ensures Span(ins, pat) == |text|
  {
    var k := Span(ins, pat);
    assert forall i: nat :: i < |text| ==> ins[i] == text[i];
    assert rest != "" ==> ins[|text|] == rest[0];
  }

  /** The end of what the variable at the start of pat takes from position start on. */
  method Capture(ins: string, start: nat, pat: string) returns (i: nat)
    requires start <= |ins| && IsVar(pat)
    ensures i == start + Span(ins[start..], pat) && i <= |ins|
  {
    i := start;
    ghost var k := Span(ins[start..], pat);
    while i < |ins| && !StopsAt(ins[i], pat)
      invariant start <= i <= start + k
    {
      assert ins[i] == ins[start..][i - start];
      i := i + 1;
    }
    assert i < |ins| ==> ins[i] == ins[start..][i - start];
  }

  lemma MatchVar(ins: string, i: nat, e: nat, pat: string, j: nat, vars: Vars)
    requires i < |ins| && j < |pat| && IsVar(pat[j..]) && e == i + Span(ins[i..], pat[j..])
    ensures e <= |ins| && MatchLine(ins[i..], pat[j..], vars) ==
      var d := VarOf(pat[j..]);
      if vars[d].None? then MatchLine(ins[e..], pat[j + 2..], vars[d := Some(ins[i..e])])
      else if vars[d].value == ins[i..e] then MatchLine(ins[e..], pat[j + 2..], vars) else None
  {
    var k := Span(ins[i..], pat[j..]);
    assert ins[i..][..k] == ins[i..e] && ins[i..][k..] == ins[e..] && pat[j..][2..] == pat[j + 2..];
  }

  /** Match a line with a pattern, binding variables on the way. */
  method Match(ins: string, pat: string, vars: array<Option<string>>) returns (matched: bool)
    requires vars.Length == 10
    modifies vars
    ensures matched <==> MatchLine(ins, pat, old(vars[..])).Some?
    ensures matched ==> MatchLine(ins, pat, old(vars[..])).value == vars[..]
  {
    var i, j := 0, 0;
    assert ins[0..] == ins && pat[0..] == pat;
    while i < |ins| && j < |pat|
      invariant 0 <= i <= |ins| && 0 <= j <= |pat|
      invariant MatchLine(ins, pat, old(vars[..])) == MatchLine(ins[i..], pat[j..], vars[..])
      decreases |pat| - j
    {
      if IsVar(pat[j..]) {
        var d := VarOf(pat[j..]);
        var e := Capture(ins, i, pat[j..]);
        MatchVar(ins, i, e, pat, j, vars[..]);
        if vars[d].None? {
          vars[d] := Some(ins[i..e]);
        } else if vars[d].value != ins[i..e] {
          return false;
        }
        i, j := e, j + 2;
      } else {
        assert ins[i..][1..] == ins[i + 1..] && pat[j..][1..] == pat[j + 1..];
        if pat[j] != ins[i] {
          return false;
        }
        i, j := i + 1, j + 1;
      }
    }
    return i == |ins| && j == |pat|;
  }

  /** What the first part of a pattern has given, cut off at the limit, and what is to come. */
  ghost predicate Filled(pat: string, j: nat, vars: Vars, lin: string)
    requires Bound(pat, vars)
  {
    && j <= |pat| && Bound(pat[j..], vars) && |lin| <= MAXLINE
    && (if |lin| < MAXLINE then Expand(pat, vars) == lin + Expand(pat[j..], vars) else |Expand(pat, vars)| >= MAXLINE)
  }

  lemma FillVar(pat: string, j: nat, vars: Vars, lin: string, take: nat)
    requires Bound(pat, vars) && Filled(pat, j, vars, lin) && IsVar(pat[j..]) && vars[VarOf(pat[j..])].Some?
    requires var s := vars[VarOf(pat[j..])].value; take == if |s| <= MAXLINE - |lin| then |s| else MAXLINE - |lin|
    ensures Filled(pat, j + 2, vars, lin + vars[VarOf(pat[j..])].value[..take])
  {
    assert VarOf(pat[j..]) in Uses(pat[j..]) && pat[j..][2..] == pat[j + 2..];
    var s := vars[VarOf(pat[j..])].value;
    assert take == |s| ==> s[..take] == s;
    assert lin + (s + Expand(pat[j + 2..], vars)) == lin + s + Expand(pat[j + 2..], vars);
  }

  lemma FillStart(pat: string, vars: Vars)
    requires Bound(pat, vars)
    ensures Filled(pat, 0, vars, "")
  {
    assert pat[0..] == pat && "" + Expand(pat, vars) == Expand(pat, vars);
  }

  lemma FillChar(pat: string, j: nat, vars: Vars, lin: string)
    requires Bound(pat, vars) && Filled(pat, j, vars, lin) && j < |pat| && !IsVar(pat[j..]) && |lin| < MAXLINE
    ensures Filled(pat, j + 1, vars, lin + [pat[j]])
  {
    assert pat[j..][1..] == pat[j + 1..];
    assert lin + ([pat[j]] + Expand(pat[j + 1..], vars)) == lin + [pat[j]] + Expand(pat[j + 1..], vars);
  }

  lemma FillEnd(pat: string, j: nat, vars: Vars, lin: string)
    requires Bound(pat, vars) && Filled(pat, j, vars, lin)
    ensures |lin| >= MAXLINE ==> |Expand(pat, vars)| >= MAXLINE
    ensures |lin| < MAXLINE && j == |pat| ==> Expand(pat, vars) == lin
  {
    assert lin + "" == lin;
  }

  /** Append the text of the variable at position j, cut off at the limit. */
  method AppendText(pat: string, j: nat, vars: Vars, lin0: string) returns (lin: string)
    requires Bound(pat, vars) && Filled(pat, j, vars, lin0) && IsVar(pat[j..])
    ensures Filled(pat, j + 2, vars, lin)
  {
    assert VarOf(pat[j..]) in Uses(pat[j..]);
    var s := vars[VarOf(pat[j..])].value;
    var take := if |s| <= MAXLINE - |lin0| then |s| else MAXLINE - |lin0|;
    FillVar(pat, j, vars, lin0, take);
    lin := lin0 + s[..take];
  }

  /** Put the texts of the variables into a pattern, unless the line becomes too long. */
  method Subst(pat: string, vars: Vars) returns (r: Option<string>)
    requires Bound(pat, vars)
    ensures r == if |Expand(pat, vars)| < 100 then Some(Expand(pat, vars)) else None
  {
    var lin, j := "", 0;
    FillStart(pat, vars);
    while true
      invariant 0 <= j && Filled(pat, j, vars, lin)
      decreases |pat| - j
    {
      if IsVar(pat[j..]) {
        lin := AppendText(pat, j, vars, lin);
        j := j + 2;
      } else if |lin| >= MAXLINE {
        FillEnd(pat, j, vars, lin);
        return None;
      } else if j == |pat| {
        FillEnd(pat, j, vars, lin);
        return Some(lin);
      } else {
        FillChar(pat, j, vars, lin);
        lin := lin + [pat[j]];
        j := j + 1;
      }
    }
  }
}
