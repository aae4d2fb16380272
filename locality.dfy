/** The span parser looks only at the characters of its span: a span parses the same way
    wherever its characters stand. From this, the text-level facts about brackets and
    negation follow from the span-level ones. */
module Locality {
  import opened Syntax
  import opened Grammar
  import opened GrammarFacts

  /** The span [l, r] of `s`, shifted by `d`, lies inside `t` with the same characters. */
  predicate SameSpan(s: string, t: string, l: int, r: int, d: int) {
    && 0 <= l <= r + 1 <= |s|
    && 0 <= l + d && r + d + 1 <= |t|
    && t[l + d..r + d + 1] == s[l..r + 1]
  }

  /** A search result moved by `d`; "none" stays -1. */
  function Shift(i: int, d: int): int {
    if i < 0 then -1 else i + d
  }

  /** A part of a shifted span is shifted with it. */
  lemma SameSubSpan(s: string, t: string, l: int, r: int, d: int, a: int, b: int)
    requires SameSpan(s, t, l, r, d) && l <= a <= b + 1 <= r + 1
    ensures SameSpan(s, t, a, b, d)
  {
    var x, y := t[a + d..b + d + 1], s[a..b + 1];
    forall k | 0 <= k < |y|
      ensures x[k] == y[k]
    {
      assert x[k] == t[l + d..r + d + 1][a - l + k];
      assert y[k] == s[l..r + 1][a - l + k];
    }
  }

  /** The characters of a shifted span are the same. */
  lemma SameChar(s: string, t: string, l: int, r: int, d: int, k: int)
    requires SameSpan(s, t, l, r, d) && l <= k <= r
    ensures t[k + d] == s[k]
  {
    assert t[k + d] == t[l + d..r + d + 1][k - l];
  }

  /** The substring search over a window of equal characters finds the same occurrence;
      the shifted window is `[lo2, end2)`. */
  lemma {:induction false} FindLocal(s: string, t: string, op: string, lo: nat, end: int, d: int,
                                     lo2: nat, end2: int)
    requires |op| > 0 && end <= |s| && end2 <= |t| && lo2 == lo + d && end2 == end + d
    requires end < lo || SameSpan(s, t, lo, end - 1, d)
    ensures Find(t, op, lo2, end2) == Shift(Find(s, op, lo, end), d)
    decreases end
  {
    if end - |op| >= lo {
      assert t[end2 - |op|..end2] == s[end - |op|..end] by {
        SameSubSpan(s, t, lo, end - 1, d, end - |op|, end - 1);
      }
      if s[end - |op|..end] != op {
        if lo <= end - 1 {
          SameSubSpan(s, t, lo, end - 1, d, lo, end - 2);
        }
        FindLocal(s, t, op, lo, end - 1, d, lo2, end2 - 1);
      }
    }
  }

  /** A span parses to the same tree wherever its characters stand; the shifted span is
      [a, b]. */
  lemma {:induction false} ParseLocal(s: string, t: string, l: int, r: int, d: int, a: int, b: int)
    requires SameSpan(s, t, l, r, d) && a == l + d && b == r + d
    ensures Parse(t, a, b) == Parse(s, l, r)
    decreases r - l + 1, 3, 0
  {
    if l <= r {
      SameChar(s, t, l, r, d, l);
      SameChar(s, t, l, r, d, r);
      assert ParenRule(t, a, b) == ParenRule(s, l, r) by {
        if s[l] == '(' && s[r] == ')' {
          SameSubSpan(s, t, l, r, d, l + 1, r - 1);
          ParseLocal(s, t, l + 1, r - 1, d, a + 1, b - 1);
        }
      }
      assert TerminalRule(t, a, b) == TerminalRule(s, l, r);
      assert IffRule(t, a, b) == IffRule(s, l, r) by {
        JointRuleLocal(s, t, "<->", l, r, d, a, b);
      }
      assert ImpliesRule(t, a, b) == ImpliesRule(s, l, r) by {
        JointRuleLocal(s, t, "->", l, r, d, a, b);
      }
      assert DisjRule(t, a, b) == DisjRule(s, l, r) by {
        JointRuleLocal(s, t, "|", l, r, d, a, b);
      }
      assert ConjRule(t, a, b) == ConjRule(s, l, r) by {
        JointRuleLocal(s, t, "&", l, r, d, a, b);
      }
      assert NegateRule(t, a, b) == NegateRule(s, l, r) by {
        if s[l] == '~' {
          SameSubSpan(s, t, l, r, d, l + 1, r);
          ParseLocal(s, t, l + 1, r, d, a + 1, b);
        }
      }
    }
  }

  /** The split search over a shifted span finds the same operands. */
  lemma {:induction false} JointRuleLocal(s: string, t: string, op: string, l: int, r: int, d: int,
                                          a: int, b: int)
    requires IsOperator(op) && SameSpan(s, t, l, r, d) && l <= r && a == l + d && b == r + d
    ensures JointRule(t, op, a, b) == JointRule(s, op, l, r)
    decreases r - l + 1, 1, 0
  {
    var i := Find(s, op, l, r + 1);
    assert Find(t, op, a, b + 1) == Shift(i, d) by {
      FindLocal(s, t, op, l, r + 1, d, a, b + 1);
    }
    JointFromLocal(s, t, op, l, r, d, a, b, i);
  }

  /** The split search from a shifted candidate finds the same operands. */
  lemma {:induction false} JointFromLocal(s: string, t: string, op: string, l: int, r: int, d: int,
                                          a: int, b: int, i: int)
    requires IsOperator(op) && SameSpan(s, t, l, r, d) && l <= r && a == l + d && b == r + d
    requires IsCandidate(s, op, l, r, i)
    ensures IsCandidate(t, op, a, b, Shift(i, d))
    ensures JointFrom(t, op, a, b, Shift(i, d)) == JointFrom(s, op, l, r, i)
    decreases r - l + 1, 0, i + 1, 1
  {
    if i >= 0 {
      var j := NextCandidate(s, op, l, i);
      OccursLocal(s, t, op, l, r, d, a, b, i);
      OperandsLocal(s, t, op, l, r, d, a, b, i);
      NextLocal(s, t, op, l, r, d, a, b, i);
      JointFromLocal(s, t, op, l, r, d, a, b, j);
      JointFromShiftStep(s, t, op, l, r, d, a, b, i);
    }
  }

  /** A shifted candidate is a candidate of the shifted span. */
  lemma OccursLocal(s: string, t: string, op: string, l: int, r: int, d: int, a: int, b: int, i: int)
    requires IsOperator(op) && SameSpan(s, t, l, r, d) && l <= r && a == l + d && b == r + d
    requires IsCandidate(s, op, l, r, i) && i >= 0
    ensures IsCandidate(t, op, a, b, i + d)
  {
    SameSubSpan(s, t, l, r, d, i, i + |op| - 1);
  }

  /** At a shifted candidate both operands parse the same. */
  lemma {:induction false} OperandsLocal(s: string, t: string, op: string, l: int, r: int, d: int,
                                         a: int, b: int, i: int)
    requires IsOperator(op) && SameSpan(s, t, l, r, d) && l <= r && a == l + d && b == r + d
    requires IsCandidate(s, op, l, r, i) && i >= 0
    ensures Parse(t, a, i + d - 1) == Parse(s, l, i - 1)
    ensures Parse(t, i + d + |op|, b) == Parse(s, i + |op|, r)
    decreases r - l + 1, 0, i + 1, 0
  {
    SameSubSpan(s, t, l, r, d, l, i - 1);
    ParseLocal(s, t, l, i - 1, d, a, i + d - 1);
    SameSubSpan(s, t, l, r, d, i + |op|, r);
    ParseLocal(s, t, i + |op|, r, d, i + d + |op|, b);
  }

  /** After a shifted candidate, the retry finds the shifted next candidate. */
  lemma NextLocal(s: string, t: string, op: string, l: int, r: int, d: int, a: int, b: int, i: int)
    requires IsOperator(op) && SameSpan(s, t, l, r, d) && l <= r && a == l + d && b == r + d
    requires IsCandidate(s, op, l, r, i) && i >= 0
    ensures NextCandidate(t, op, a, i + d) == Shift(NextCandidate(s, op, l, i), d)
  {
    if l <= i - 1 {
      SameSubSpan(s, t, l, r, d, l, i - 2);
    }
    FindLocal(s, t, op, l, i - 1, d, a, i + d - 1);
  }

  /** One step of the split search: equal operands and an equally shifted next candidate
      give the same outcome. */
  lemma JointFromShiftStep(s: string, t: string, op: string, l: int, r: int, d: int,
                           a: int, b: int, i: int)
    requires IsOperator(op) && 0 <= l <= r < |s| && 0 <= a <= b < |t| && a == l + d
    requires IsCandidate(s, op, l, r, i) && i >= 0 && IsCandidate(t, op, a, b, i + d)
    requires Parse(t, a, i + d - 1) == Parse(s, l, i - 1)
    requires Parse(t, i + d + |op|, b) == Parse(s, i + |op|, r)
    requires NextCandidate(t, op, a, i + d) == Shift(NextCandidate(s, op, l, i), d)
    requires JointFrom(t, op, a, b, Shift(NextCandidate(s, op, l, i), d))
      == JointFrom(s, op, l, r, NextCandidate(s, op, l, i))
    ensures JointFrom(t, op, a, b, i + d) == JointFrom(s, op, l, r, i)
  {
  }

  /** A string that holds `t` from index 1 on parses there as `t` does. */
  lemma InnerParse(t: string, u: string)
    requires |t| + 1 <= |u| && u[1..|t| + 1] == t
    ensures Parse(u, 1, |t|) == Parse(t, 0, |t| - 1)
  {
    assert SameSpan(t, u, 0, |t| - 1, 1) by {
      assert t[0..|t|] == t;
    }
    ParseLocal(t, u, 0, |t| - 1, 1, 1, |t|);
  }

  /** The text `(t)` parses to the same formula as `t`, when `t` parses. */
  lemma BracketedFormula(t: string)
    requires ' ' !in t && ParseFormula(t).Some?
    ensures ParseFormula(['('] + t + [')']) == ParseFormula(t)
  {
    var u := ['('] + t + [')'];
    assert ' ' !in u && |u| == |t| + 2 && u[0] == '(' && u[|t| + 1] == ')' && u[1..|t| + 1] == t;
    BracketedText(t, u);
  }

  /** `BracketedFormula` for a text `u` given by its characters. */
  lemma BracketedText(t: string, u: string)
    requires ' ' !in u && |u| == |t| + 2 && u[0] == '(' && u[|t| + 1] == ')' && u[1..|t| + 1] == t
    requires ParseFormula(t).Some?
    ensures ParseFormula(u) == ParseFormula(t)
  {
    assert ParseFormula(t) == Parse(t, 0, |t| - 1) by {
      StripSpacesKeeps(t);
    }
    assert ParseFormula(u) == Parse(u, 0, |t| + 1) by {
      StripSpacesKeeps(u);
    }
    assert Parse(u, 1, |t|) == Parse(t, 0, |t| - 1) by {
      InnerParse(t, u);
    }
    ParenKeepsInterior(u, 0, |t| + 1);
  }

  /** The negation rule on a span that starts with `~` and whose rest parses. */
  lemma NegateRuleOf(s: string, l: int, r: int)
    requires 0 <= l < r < |s| && s[l] == '~' && Parse(s, l + 1, r).Some?
    ensures NegateRule(s, l, r) == Some(Not(Parse(s, l + 1, r).value))
  {
  }

  /** A span that starts with `~` and whose rest parses always parses, and it parses by
      the negation rule unless a binary rule splits it first. */
  lemma NegatedSpan(s: string, l: int, r: int)
    requires 0 <= l < r < |s| && s[l] == '~' && Parse(s, l + 1, r).Some?
    ensures Parse(s, l, r).Some?
    ensures (IffRule(s, l, r).None? && ImpliesRule(s, l, r).None? && DisjRule(s, l, r).None?
             && ConjRule(s, l, r).None?) ==> Parse(s, l, r) == NegateRule(s, l, r)
  {
    assert ParenRule(s, l, r).None? && TerminalRule(s, l, r).None?;
    NegateRuleOf(s, l, r);
  }

  /** The negation rule on the text `u` = `~t` gives the negation of `t`'s formula. */
  lemma NegationRuleOfText(t: string, u: string)
    requires ' ' !in t && |u| == |t| + 1 && u[0] == '~' && u[1..|t| + 1] == t
    requires ParseFormula(t).Some?
    ensures NegateRule(u, 0, |t|) == Some(Not(ParseFormula(t).value))
  {
    assert ParseFormula(t) == Parse(t, 0, |t| - 1) by {
      StripSpacesKeeps(t);
    }
    assert Parse(u, 1, |t|) == Parse(t, 0, |t| - 1) by {
      InnerParse(t, u);
    }
    NegateRuleOf(u, 0, |t|);
  }

  /** The text `u` = `~t` parses whenever `t` parses. Its negation rule gives the negation
      of `t`'s formula, and that is the result unless a binary rule splits `u` first. */
  lemma NegatedFormula(t: string, u: string)
    requires ' ' !in u && |u| == |t| + 1 && u[0] == '~' && u[1..|t| + 1] == t
    requires ParseFormula(t).Some?
    ensures ParseFormula(u).Some?
    ensures NegateRule(u, 0, |t|) == Some(Not(ParseFormula(t).value))
    ensures (IffRule(u, 0, |t|).None? && ImpliesRule(u, 0, |t|).None? && DisjRule(u, 0, |t|).None?
             && ConjRule(u, 0, |t|).None?) ==> ParseFormula(u) == Some(Not(ParseFormula(t).value))
  {
    assert ' ' !in t && Parse(u, 1, |t|).Some? by {
      assert forall c :: c in t ==> c in u;
      StripSpacesKeeps(t);
      InnerParse(t, u);
    }
    assert ParseFormula(u) == Parse(u, 0, |t|) by {
      StripSpacesKeeps(u);
    }
    NegationRuleOfText(t, u);
    NegatedSpan(u, 0, |t|);
  }
}
