/** The parser as the program runs it: the rule ladder and the split-search loop, interning
    each variable in a registry as it is met. Each method computes exactly the function of
    module Grammar that specifies it, and keeps the registry within the letters it read. */
module Parser {
  import opened Syntax
  import opened Grammar
  import opened GrammarFacts
  import opened Registry

  /** Parses the span [l, r] by trying the rules in order. The registry gains only
      letters of the span; after a success it holds every letter of the span. */
  method ParseSpan(s: string, l: int, r: int, reg: VarRegistry) returns (res: Option<Expr>)
    requires 0 <= l <= r + 1 <= |s| && reg.Valid()
    modifies reg
    ensures reg.Valid()
    ensures res == Parse(s, l, r)
    ensures old(reg.handles.Keys) <= reg.handles.Keys <= old(reg.handles.Keys) + Letters(s[l..r + 1])
    ensures res.Some? ==> reg.handles.Keys == old(reg.handles.Keys) + Letters(s[l..r + 1])
    decreases r - l + 1, 4
  {
    if l > r {
      return None;
    }
    res := ParseParen(s, l, r, reg);
    if res.Some? {
      return;
    }
    res := ParseTerminal(s, l, r, reg);
    if res.Some? {
      return;
    }
    res := ParseIff(s, l, r, reg);
    if res.Some? {
      return;
    }
    res := ParseImplies(s, l, r, reg);
    if res.Some? {
      return;
    }
    res := ParseDisj(s, l, r, reg);
    if res.Some? {
      return;
    }
    res := ParseConj(s, l, r, reg);
    if res.Some? {
      return;
    }
    res := ParseNegation(s, l, r, reg);
  }

  /** `(X)`: parses the interior of a bracketed span. */
  method ParseParen(s: string, l: int, r: int, reg: VarRegistry) returns (res: Option<Expr>)
    requires 0 <= l <= r < |s| && reg.Valid()
    modifies reg
    ensures reg.Valid()
    ensures res == ParenRule(s, l, r)
    ensures old(reg.handles.Keys) <= reg.handles.Keys <= old(reg.handles.Keys) + Letters(s[l..r + 1])
    ensures res.Some? ==> reg.handles.Keys == old(reg.handles.Keys) + Letters(s[l..r + 1])
    decreases r - l + 1, 3
  {
    if s[l] == '(' && s[r] == ')' {
      LettersSplit(s, l, l + 1, r);
      LettersOfOne(s, l);
      LettersSplit(s, l + 1, r, r);
      LettersOfOne(s, r);
      res := ParseSpan(s, l + 1, r - 1, reg);
    } else {
      res := None;
    }
  }

  /** A one-character span: a variable, interned in the registry, or a constant. */
  method ParseTerminal(s: string, l: int, r: int, reg: VarRegistry) returns (res: Option<Expr>)
    requires 0 <= l <= r < |s| && reg.Valid()
    modifies reg
    ensures reg.Valid()
    ensures res == TerminalRule(s, l, r)
    ensures old(reg.handles.Keys) <= reg.handles.Keys <= old(reg.handles.Keys) + Letters(s[l..r + 1])
    ensures res.Some? ==> reg.handles.Keys == old(reg.handles.Keys) + Letters(s[l..r + 1])
  {
    if r != l {
      return None;
    }
    LettersOfOne(s, r);
    var c := s[r];
    if IsLower(c) {
      var h := reg.Intern(c);
      return Some(h);
    }
    if c == 'T' {
      return Some(Const(true));
    }
    if c == 'F' {
      return Some(Const(false));
    }
    return None;
  }

  /** `~X`. */
  method ParseNegation(s: string, l: int, r: int, reg: VarRegistry) returns (res: Option<Expr>)
    requires 0 <= l <= r < |s| && reg.Valid()
    modifies reg
    ensures reg.Valid()
    ensures res == NegateRule(s, l, r)
    ensures old(reg.handles.Keys) <= reg.handles.Keys <= old(reg.handles.Keys) + Letters(s[l..r + 1])
    ensures res.Some? ==> reg.handles.Keys == old(reg.handles.Keys) + Letters(s[l..r + 1])
    decreases r - l + 1, 3
  {
    if s[l] == '~' {
      LettersSplit(s, l, l + 1, r);
      LettersOfOne(s, l);
      var x := ParseSpan(s, l + 1, r, reg);
      if x.Some? {
        return Some(Not(x.value));
      }
    }
    return None;
  }

  /** `X<->X`, built as the conjunction of the two implications. */
  method ParseIff(s: string, l: int, r: int, reg: VarRegistry) returns (res: Option<Expr>)
    requires 0 <= l <= r < |s| && reg.Valid()
    modifies reg
    ensures reg.Valid()
    ensures res == IffRule(s, l, r)
    ensures old(reg.handles.Keys) <= reg.handles.Keys <= old(reg.handles.Keys) + Letters(s[l..r + 1])
    ensures res.Some? ==> reg.handles.Keys == old(reg.handles.Keys) + Letters(s[l..r + 1])
    decreases r - l + 1, 3
  {
    var j := Joint(s, "<->", l, r, reg);
    if j.Some? {
      return Some(IffNode(j.value.0, j.value.1));
    }
    return None;
  }

  /** `X->X`. */
  method ParseImplies(s: string, l: int, r: int, reg: VarRegistry) returns (res: Option<Expr>)
    requires 0 <= l <= r < |s| && reg.Valid()
    modifies reg
    ensures reg.Valid()
    ensures res == ImpliesRule(s, l, r)
    ensures old(reg.handles.Keys) <= reg.handles.Keys <= old(reg.handles.Keys) + Letters(s[l..r + 1])
    ensures res.Some? ==> reg.handles.Keys == old(reg.handles.Keys) + Letters(s[l..r + 1])
    decreases r - l + 1, 3
  {
    var j := Joint(s, "->", l, r, reg);
    if j.Some? {
      return Some(Implies(j.value.0, j.value.1));
    }
    return None;
  }

  /** `X|X`. */
  method ParseDisj(s: string, l: int, r: int, reg: VarRegistry) returns (res: Option<Expr>)
    requires 0 <= l <= r < |s| && reg.Valid()
    modifies reg
    ensures reg.Valid()
    ensures res == DisjRule(s, l, r)
    ensures old(reg.handles.Keys) <= reg.handles.Keys <= old(reg.handles.Keys) + Letters(s[l..r + 1])
    ensures res.Some? ==> reg.handles.Keys == old(reg.handles.Keys) + Letters(s[l..r + 1])
    decreases r - l + 1, 3
  {
    var j := Joint(s, "|", l, r, reg);
    if j.Some? {
      return Some(Or(j.value.0, j.value.1));
    }
    return None;
  }

  /** `X&X`. */
  method ParseConj(s: string, l: int, r: int, reg: VarRegistry) returns (res: Option<Expr>)
    requires 0 <= l <= r < |s| && reg.Valid()
    modifies reg
    ensures reg.Valid()
    ensures res == ConjRule(s, l, r)
    ensures old(reg.handles.Keys) <= reg.handles.Keys <= old(reg.handles.Keys) + Letters(s[l..r + 1])
    ensures res.Some? ==> reg.handles.Keys == old(reg.handles.Keys) + Letters(s[l..r + 1])
    decreases r - l + 1, 3
  {
    var j := Joint(s, "&", l, r, reg);
    if j.Some? {
      return Some(And(j.value.0, j.value.1));
    }
    return None;
  }

  /** The split search for `op` over [l, r]: tries the rightmost occurrence first and
      retries leftwards until both operands parse. */
  method Joint(s: string, op: string, l: int, r: int, reg: VarRegistry)
    returns (res: Option<(Expr, Expr)>)
    requires IsOperator(op) && 0 <= l <= r < |s| && reg.Valid()
    modifies reg
    ensures reg.Valid()
    ensures res == JointRule(s, op, l, r)
    ensures old(reg.handles.Keys) <= reg.handles.Keys <= old(reg.handles.Keys) + Letters(s[l..r + 1])
    ensures res.Some? ==> reg.handles.Keys == old(reg.handles.Keys) + Letters(s[l..r + 1])
    decreases r - l + 1, 2
  {
    ghost var before, letters := reg.handles.Keys, Letters(s[l..r + 1]);
    var i := Find(s, op, l, r + 1);
    while i != -1
      invariant IsCandidate(s, op, l, r, i)
      invariant JointFrom(s, op, l, r, i) == JointRule(s, op, l, r)
      invariant reg.Valid()
      invariant before <= reg.handles.Keys <= before + letters
      decreases i + 1
    {
      JointFromStep(s, op, l, r, i);
      res := SplitAt(s, op, l, r, i, reg);
      if res.Some? {
        return;
      }
      i := NextCandidate(s, op, l, i);
    }
    return None;
  }

  /** Parses both operands of the split of [l, r] at the occurrence of `op` at `i`. */
  method SplitAt(s: string, op: string, l: int, r: int, i: int, reg: VarRegistry)
    returns (res: Option<(Expr, Expr)>)
    requires IsOperator(op) && 0 <= l <= r < |s| && IsCandidate(s, op, l, r, i) && i != -1
    requires reg.Valid()
    modifies reg
    ensures reg.Valid()
    ensures res == if Parse(s, l, i - 1).Some? && Parse(s, i + |op|, r).Some?
                   then Some((Parse(s, l, i - 1).value, Parse(s, i + |op|, r).value))
                   else None
    ensures old(reg.handles.Keys) <= reg.handles.Keys <= old(reg.handles.Keys) + Letters(s[l..r + 1])
    ensures res.Some? ==> reg.handles.Keys == old(reg.handles.Keys) + Letters(s[l..r + 1])
    decreases r - l + 1, 1
  {
    assert l <= i && i + |op| <= r + 1;
    var x := ParseSpan(s, l, i - 1, reg);
    var y := ParseSpan(s, i + |op|, r, reg);
    assert s[l..i - 1 + 1] == s[l..i];
    OperandLetters(s, op, l, r, i);
    if x.Some? && y.Some? {
      return Some((x.value, y.value));
    }
    return None;
  }

  /** One step of the split search at candidate `i`. */
  lemma JointFromStep(s: string, op: string, l: int, r: int, i: int)
    requires IsOperator(op) && 0 <= l <= r < |s| && IsCandidate(s, op, l, r, i) && i != -1
    ensures JointFrom(s, op, l, r, i) ==
      if Parse(s, l, i - 1).Some? && Parse(s, i + |op|, r).Some?
      then Some((Parse(s, l, i - 1).value, Parse(s, i + |op|, r).value))
      else JointFrom(s, op, l, r, NextCandidate(s, op, l, i))
  {
  }

  /** Parses a whole formula after removing its spaces. */
  method ParseText(text: string, reg: VarRegistry) returns (res: Option<Expr>)
    requires reg.Valid()
    modifies reg
    ensures reg.Valid()
    ensures res == ParseFormula(text)
    ensures old(reg.handles.Keys) <= reg.handles.Keys <= old(reg.handles.Keys) + Letters(StripSpaces(text))
    ensures res.Some? ==> reg.handles.Keys == old(reg.handles.Keys) + Letters(StripSpaces(text))
  {
    var s := StripSpaces(text);
    assert s[0..|s|] == s;
    res := ParseSpan(s, 0, |s| - 1, reg);
  }
}
