/** The peephole optimizer's main loop. */
module Copt {
  import opened Patterns
  import opened Peephole

  class Optimizer {
    const rules: seq<Rule>
    var text: seq<string>           // an empty line, the text, and another empty line
    ghost var trace: seq<seq<string>>

    ghost predicate Valid()
      reads this
    {
      && 2 <= |text| && text[0] == ""
      && (forall rule: Rule :: rule in rules ==> rule.Valid())
      && 0 < |trace| && trace[|trace| - 1] == text && Rewriting(rules, trace)
    }

    constructor (rules: seq<Rule>, lines: seq<string>)
      requires forall rule: Rule :: rule in rules ==> rule.Valid()
      ensures Valid() && this.rules == rules && text == [""] + lines + [""] && trace == [text]
    {
      this.rules := rules;
      text := [""] + lines + [""];
      trace := [[""] + lines + [""]];
    }

    /** Whether a rule matches the lines that end with r. */
    method TryRule(rule: Rule, r: nat) returns (matched: bool, c: int, w: Vars)
      requires Valid() && rule.Valid() && 1 <= r < |text|
      ensures matched <==> MatchBack(text, r, rule.lhs, NONE).Some?
      ensures matched ==> c == r - |rule.lhs| && w == MatchBack(text, r, rule.lhs, NONE).value
    {
      var vars := new Option<string>[10](_ => None);
      var p: nat := |rule.lhs|;
      c, matched, w := r, true, NONE;
      assert rule.lhs[..p] == rule.lhs && vars[..] == NONE;
      while p > 0 && c >= 0 && matched
        invariant p <= |rule.lhs| && c == r - (|rule.lhs| - p)
        invariant matched ==> MatchBack(text, r, rule.lhs, NONE) == MatchBack(text, c, rule.lhs[..p], vars[..])
        invariant !matched ==> MatchBack(text, r, rule.lhs, NONE).None?
        decreases p, matched
      {
        matched := Match(text[c], rule.lhs[p - 1], vars);
        assert rule.lhs[..p][..p - 1] == rule.lhs[..p - 1];
        if matched {
          p, c := p - 1, c - 1;
        }
      }
      if p > 0 {
        matched := false;
      }
      w := vars[..];
    }

    /** Put the new lines of a rule in the place of the lines behind p1 and in front of p2. */
    method Replace(p1: nat, p2: nat, pats: seq<string>, w: Vars) returns (fits: bool)
      requires p1 < p2 < |text| && BoundAll(pats, w)
      modifies this`text
      ensures fits ==> text == old(text)[..p1 + 1] + ExpandAll(pats, w) + old(text)[p2..]
      ensures !fits ==> exists p: string :: p in pats && |Expand(p, w)| >= MAXLINE
    {
      var front, back := text[..p1 + 1], text[p2..];
      text := front + back;
      for i := 0 to |pats|
        invariant text == front + ExpandAll(pats, w)[..i] + back
      {
        assert pats[i] in pats;
        var line := Subst(pats[i], w);
        if line.None? {
          return false;
        }
        assert ExpandAll(pats, w)[..i + 1] == ExpandAll(pats, w)[..i] + [line.value];
        text := text[..p1 + 1 + i] + [line.value] + back;
      }
      return true;
    }

    /** Apply the first rule that matches lines ending with r, and go on with what it put in; or go
        on with the next line. */
    method Opt(r: nat) returns (fits: bool, next: nat)
      requires Valid() && 1 <= r < |text| - 1 && NormalBefore(rules, text, r)
      modifies this`text, this`trace
      ensures fits ==> Valid() && 1 <= next < |text| && NormalBefore(rules, text, next)
      ensures fits && trace == old(trace) ==> text == old(text) && next == r + 1
      ensures fits && trace != old(trace) ==> Rewrites(rules, old(text), text) && trace == old(trace) + [text]
      ensures fits && trace != old(trace) ==> exists i: nat :: FirstApplied(rules, old(text), r, i, text, next)
      ensures !fits ==> TooLong(rules)
    {
      for i := 0 to |rules|
        invariant text == old(text) && trace == old(trace)
        invariant forall j: nat :: j < i ==> MatchBack(text, r, rules[j].lhs, NONE).None?
      {
        assert rules[i] in rules;
        var matched, c, w := TryRule(rules[i], r);
        if matched {
          fits, next := Apply(i, r, w);
          return;
        }
      }
      assert !EndsMatch(rules, text, r);
      return true, r + 1;
    }

    /** Apply rule i, the first that matches lines ending with r. */
    method Apply(i: nat, r: nat, w: Vars) returns (fits: bool, next: nat)
      requires Valid() && 1 <= r < |text| - 1 && NormalBefore(rules, text, r) && i < |rules|
      requires MatchBack(text, r, rules[i].lhs, NONE).Some? && w == MatchBack(text, r, rules[i].lhs, NONE).value
      requires forall j: nat :: j < i ==> MatchBack(text, r, rules[j].lhs, NONE).None?
      modifies this`text, this`trace
      ensures fits ==> Valid() && 1 <= next < |text| && NormalBefore(rules, text, next)
      ensures fits ==> Rewrites(rules, old(text), text) && trace == old(trace) + [text]
      ensures fits ==> FirstApplied(rules, old(text), r, i, text, next)
      ensures !fits ==> TooLong(rules)
    {
      var rule := rules[i];
      ghost var before := text;
      MatchedBefore(rules, text, r, i, w);
      var c := r - |rule.lhs|;
      fits := Replace(c, r + 1, rule.rhs, w);
      next := c + 1;
      if fits {
        Replaced(rules, i, w, before, c, r, text);
        NormalPrefix(rules, before, text, c + 1);
        Extended(rules, trace, text);
        trace := trace + [text];
      } else {
        LineTooLong(rules, i, w);
      }
    }

    /** Optimize the whole text. It stops, provided that rewriting decreases some measure; if no line
        becomes too long, no rule matches any more. */
    method Optimize(ghost measure: seq<string> -> ORDINAL) returns (fits: bool)
      requires Valid() && Decreasing(rules, measure)
      modifies this`text, this`trace
      ensures fits ==> Valid() && old(trace) <= trace && NormalBefore(rules, text, |text| - 1)
      ensures !fits ==> TooLong(rules)
    {
      var p: nat := 1;
      fits := true;
      while p < |text| - 1
        invariant Valid() && 1 <= p < |text| && NormalBefore(rules, text, p) && old(trace) <= trace
        decreases measure(text), |text| - p
      {
        fits, p := Opt(p);
        if !fits {
          return;
        }
      }
    }
  }

  /** Rule i, the first that matches lines ending with r, replaces them; the next line to look at is
      the first one it puts in, or the one behind. */
  ghost predicate FirstApplied(rules: seq<Rule>, before: seq<string>, r: nat, i: nat, after: seq<string>, next: nat)
    requires r < |before|
  {
    && i < |rules| && |rules[i].lhs| <= r && next == r + 1 - |rules[i].lhs|
    && (forall j: nat :: j < i ==> MatchBack(before, r, rules[j].lhs, NONE).None?)
    && MatchBack(before, r, rules[i].lhs, NONE).Some?
    && var w := MatchBack(before, r, rules[i].lhs, NONE).value;
       BoundAll(rules[i].rhs, w) && after == before[..next] + ExpandAll(rules[i].rhs, w) + before[r + 1..]
  }

  /** The lines that rule i matches lie behind the empty line at the top. */
  lemma MatchedBefore(rules: seq<Rule>, text: seq<string>, r: nat, i: nat, w: Vars)
    requires i < |rules| && rules[i].Valid() && r < |text| && text[0] == ""
    requires MatchBack(text, r, rules[i].lhs, NONE) == Some(w)
    ensures |rules[i].lhs| <= r && BoundAll(rules[i].lhs, w) && BoundAll(rules[i].rhs, w)
    ensures text[r - |rules[i].lhs| + 1..r + 1] == ExpandAll(rules[i].lhs, w)
  {
    MatchBackExpands(text, r, rules[i].lhs, NONE);
    NewBound(rules[i], w);
  }

  lemma LineTooLong(rules: seq<Rule>, i: nat, w: Vars)
    requires i < |rules| && BoundAll(rules[i].rhs, w)
    requires exists p: string :: p in rules[i].rhs && |Expand(p, w)| >= MAXLINE
    ensures TooLong(rules)
  {
    var p: string :| p in rules[i].rhs && |Expand(p, w)| >= MAXLINE;
    assert Bound(p, w);
  }

  lemma Extended(rules: seq<Rule>, trace: seq<seq<string>>, text: seq<string>)
    requires Rewriting(rules, trace) && trace != [] && Rewrites(rules, trace[|trace| - 1], text)
    ensures Rewriting(rules, trace + [text])
  {
  }

  lemma Replaced(rules: seq<Rule>, i: nat, w: Vars, before: seq<string>, c: nat, r: nat, after: seq<string>)
    requires i < |rules| && BoundAll(rules[i].lhs, w) && BoundAll(rules[i].rhs, w)
    requires c <= r < |before| - 1 && before[c + 1..r + 1] == ExpandAll(rules[i].lhs, w)
    requires after == before[..c + 1] + ExpandAll(rules[i].rhs, w) + before[r + 1..]
    ensures Rewrites(rules, before, after) && after[..c + 1] == before[..c + 1]
  {
    assert before == before[..c + 1] + before[c + 1..r + 1] + before[r + 1..];
    assert Applies(rules[i], w, before[..c + 1], before[r + 1..], before, after);
  }

  /** Some instance of a rule has a new line that is too long. */
  ghost predicate TooLong(rules: seq<Rule>) {
    exists i: nat, w: Vars, p: string :: i < |rules| && p in rules[i].rhs && Bound(p, w) && |Expand(p, w)| >= MAXLINE
  }

  ghost predicate Decreasing(rules: seq<Rule>, measure: seq<string> -> ORDINAL) {
    forall before: seq<string>, after: seq<string> {:trigger Rewrites(rules, before, after)} ::
      Rewrites(rules, before, after) ==> measure(after) < measure(before)
  }

  /** Rules that put in fewer lines than they find decrease the number of lines. */
  lemma ShorteningDecreases(rules: seq<Rule>)
    requires forall i: nat :: i < |rules| ==> |rules[i].rhs| < |rules[i].lhs|
    ensures Decreasing(rules, (text: seq<string>) => |text| as ORDINAL)
  {
  }
}
