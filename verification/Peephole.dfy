/** The peephole optimizer: rewriting a text, line by line, until no rule matches. */
module Peephole {
  import opened Patterns

  /** Lines to find, and lines to put in their place. */
  datatype Rule = Rule(lhs: seq<string>, rhs: seq<string>) {

    /** There is something to find, patterns are not empty, and what is put in uses only variables
        of what is found. */
    ghost predicate Valid() {
      && lhs != []
      && (forall p: string :: p in lhs ==> p != "")
      && UsesAll(rhs) <= UsesAll(lhs)
    }
  }

  ghost function UsesAll(pats: seq<string>): set<nat> {
    set p: string, d: nat | p in pats && d in Uses(p) :: d
  }

  ghost predicate BoundAll(pats: seq<string>, vars: Vars) {
    forall p: string :: p in pats ==> Bound(p, vars)
  }

  ghost function ExpandAll(pats: seq<string>, vars: Vars): (s: seq<string>)
    requires BoundAll(pats, vars)
    ensures |s| == |pats| && forall i: nat :: i < |pats| ==> s[i] == Expand(pats[i], vars)
  {
    seq(|pats|, i requires 0 <= i < |pats| => Expand(pats[i], vars))
  }

  const NONE: Vars := [None, None, None, None, None, None, None, None, None, None]

  /** Match the lines that end with line c with patterns, from the last to the first. */
  function MatchBack(text: seq<string>, c: int, pats: seq<string>, vars: Vars): Option<Vars>
    requires c < |text|
  {
    if pats == [] then Some(vars)
    else if c < 0 then None
    else
      var w := MatchLine(text[c], pats[|pats| - 1], vars);
      if w.None? then None else MatchBack(text, c - 1, pats[..|pats| - 1], w.value)
  }

  predicate EndsMatch(rules: seq<Rule>, text: seq<string>, r: nat)
    requires r < |text|
  {
    exists i: nat :: i < |rules| && MatchBack(text, r, rules[i].lhs, NONE).Some?
  }

  /** No rule matches lines that end before line p. The first and the last line are not text. */
  ghost predicate NormalBefore(rules: seq<Rule>, text: seq<string>, p: nat) {
    forall r: nat {:trigger EndsMatch(rules, text, r)} :: 1 <= r < p && r < |text| ==> !EndsMatch(rules, text, r)
  }

  /** before becomes after when one instance of a rule is replaced. */
  ghost predicate Applies(rule: Rule, w: Vars, pre: seq<string>, suf: seq<string>, before: seq<string>,
      after: seq<string>) {
    && pre != [] && suf != [] && BoundAll(rule.lhs, w) && BoundAll(rule.rhs, w)
    && before == pre + ExpandAll(rule.lhs, w) + suf
    && after == pre + ExpandAll(rule.rhs, w) + suf
  }

  ghost predicate Rewrites(rules: seq<Rule>, before: seq<string>, after: seq<string>) {
    exists i: nat, w: Vars, pre: seq<string>, suf: seq<string> ::
      i < |rules| && Applies(rules[i], w, pre, suf, before, after)
  }

  /** Each text in the trace is the one before it, rewritten once. */
  ghost predicate Rewriting(rules: seq<Rule>, trace: seq<seq<string>>) {
    forall i: nat {:trigger trace[i]} :: i + 1 < |trace| ==> Rewrites(rules, trace[i], trace[i + 1])
  }

  // ----- Matching several lines -----

  lemma {:induction false} ExpandExtends(pat: string, v: Vars, w: Vars)
    requires Bound(pat, v) && Extends(v, w)
    ensures Bound(pat, w) && Expand(pat, w) == Expand(pat, v)
    decreases |pat|
  {
    if pat != "" {
      if IsVar(pat) {
        assert VarOf(pat) in Uses(pat);
        ExpandExtends(pat[2..], v, w);
      } else {
        ExpandExtends(pat[1..], v, w);
      }
    }
  }

  lemma ExpandLast(rest: seq<string>, last: string, w: Vars)
    requires BoundAll(rest, w) && Bound(last, w)
    ensures BoundAll(rest + [last], w) && ExpandAll(rest + [last], w) == ExpandAll(rest, w) + [Expand(last, w)]
  {
  }

  /** A match of several lines binds variables such that the patterns give the lines. The line in
      front of the text is empty, and so no pattern matches it. */
  lemma {:induction false} MatchBackExpands(text: seq<string>, c: int, pats: seq<string>, vars: Vars)
    requires 0 <= c < |text| && text[0] == "" && (forall p: string :: p in pats ==> p != "")
    requires MatchBack(text, c, pats, vars).Some?
    ensures var w := MatchBack(text, c, pats, vars).value;
      && Extends(vars, w) && |pats| <= c && BoundAll(pats, w)
      && text[c + 1 - |pats|..c + 1] == ExpandAll(pats, w)
    decreases |pats|
  {
    if pats != [] {
      var rest, last := pats[..|pats| - 1], pats[|pats| - 1];
      assert pats == rest + [last] && last in pats;
      MatchExpands(text[c], last, vars);
      var v := MatchLine(text[c], last, vars).value;
      assert forall p: string :: p in rest ==> p in pats;
      assert text[c] != "";
      MatchBackExpands(text, c - 1, rest, v);
      var w := MatchBack(text, c, pats, vars).value;
      ExpandExtends(last, v, w);
      ExpandLast(rest, last, w);
      OneMoreLine(text, c, |rest|, ExpandAll(rest, w), Expand(last, w));
    }
  }

  lemma OneMoreLine(text: seq<string>, c: int, n: nat, s: seq<string>, x: string)
    requires n < c < |text| && text[c] == x && text[c - n..c] == s
    ensures text[c - n..c + 1] == s + [x]
  {
  }

  /** Whether lines up to c match does not depend on the lines behind. */
  lemma {:induction false} MatchBackPrefix(text: seq<string>, text': seq<string>, c: int, pats: seq<string>, vars: Vars)
    requires c < |text| && c < |text'| && forall i: nat :: i <= c ==> text[i] == text'[i]
    ensures MatchBack(text, c, pats, vars) == MatchBack(text', c, pats, vars)
    decreases |pats|
  {
    if pats != [] && 0 <= c {
      var w := MatchLine(text[c], pats[|pats| - 1], vars);
      if w.Some? {
        MatchBackPrefix(text, text', c - 1, pats[..|pats| - 1], w.value);
      }
    }
  }

  lemma NormalPrefix(rules: seq<Rule>, text: seq<string>, text': seq<string>, p: nat)
    requires NormalBefore(rules, text, p) && p <= |text| && p <= |text'| && text[..p] == text'[..p]
    ensures NormalBefore(rules, text', p)
  {
    forall r: nat | 1 <= r < p && r < |text'| ensures !EndsMatch(rules, text', r) {
      assert forall i: nat :: i <= r ==> text[i] == text[..p][i] && text'[i] == text'[..p][i];
      forall i: nat | i < |rules| ensures MatchBack(text', r, rules[i].lhs, NONE).None? {
        MatchBackPrefix(text, text', r, rules[i].lhs, NONE);
        assert !EndsMatch(rules, text, r);
      }
    }
  }

  lemma NewBound(rule: Rule, w: Vars)
    requires rule.Valid() && BoundAll(rule.lhs, w)
    ensures BoundAll(rule.rhs, w)
  {
    forall p: string, d: nat | p in rule.rhs && d in Uses(p) && d < 10 ensures w[d].Some? {
      assert d in UsesAll(rule.rhs);
      var q: string :| q in rule.lhs && d in Uses(q);
      assert Bound(q, w);
    }
  }

  /** If suitable texts for the variables give the lines, the match finds them. */
  lemma {:induction false} MatchBackFinds(text: seq<string>, c: int, pats: seq<string>, vars: Vars, w: Vars)
    requires 0 <= |pats| <= c < |text| && Extends(vars, w) && BoundAll(pats, w)
    requires text[c + 1 - |pats|..c + 1] == ExpandAll(pats, w)
    requires forall p: string :: p in pats ==> Delimited(p, w)
    ensures MatchBack(text, c, pats, vars).Some?
    decreases |pats|
  {
    if pats != [] {
      var rest, last := pats[..|pats| - 1], pats[|pats| - 1];
      LastPattern(text, c, pats, w);
      MatchFinds(text[c], last, vars, w);
      MatchBackFinds(text, c - 1, rest, MatchLine(text[c], last, vars).value, w);
    }
  }

  /** The last line is an instance of the last pattern, and so are the other lines of the others. */
  lemma LastPattern(text: seq<string>, c: int, pats: seq<string>, w: Vars)
    requires 0 < |pats| <= c < |text| && BoundAll(pats, w) && text[c + 1 - |pats|..c + 1] == ExpandAll(pats, w)
    ensures var rest, last := pats[..|pats| - 1], pats[|pats| - 1];
      && last in pats && (forall p: string :: p in rest ==> p in pats)
      && Bound(last, w) && BoundAll(rest, w) && text[c] == Expand(last, w) && text[c - |rest|..c] == ExpandAll(rest, w)
  {
    var rest, last := pats[..|pats| - 1], pats[|pats| - 1];
    assert pats == rest + [last];
    ExpandLast(rest, last, w);
    LastLine(text, c, |pats|, ExpandAll(rest, w), Expand(last, w));
  }

  lemma LastLine(text: seq<string>, c: int, n: nat, s: seq<string>, x: string)
    requires 0 < n <= c < |text| && text[c + 1 - n..c + 1] == s + [x]
    ensures text[c] == x && text[c + 1 - n..c] == s
  {
    assert text[c + 1 - n..c + 1] == text[c + 1 - n..c] + [text[c]];
    assert (s + [x])[..n - 1] == s && (text[c + 1 - n..c] + [text[c]])[..n - 1] == text[c + 1 - n..c];
  }

  /** In a normal text there is no instance of a rule, with texts for the variables as a match would
      bind them. */
  lemma NormalHasNoInstance(rules: seq<Rule>, text: seq<string>, i: nat, w: Vars, pre: seq<string>, suf: seq<string>)
    requires 0 < |text| && NormalBefore(rules, text, |text| - 1) && i < |rules| && rules[i].Valid()
    requires pre != [] && suf != [] && BoundAll(rules[i].lhs, w) && text == pre + ExpandAll(rules[i].lhs, w) + suf
    ensures exists p: string :: p in rules[i].lhs && !Delimited(p, w)
  {
    var c := |pre| + |rules[i].lhs| - 1;
    if forall p: string :: p in rules[i].lhs ==> Delimited(p, w) {
      assert text[|pre|..c + 1] == ExpandAll(rules[i].lhs, w);
      MatchBackFinds(text, c, rules[i].lhs, NONE, w);
      assert EndsMatch(rules, text, c);
    }
  }
}
