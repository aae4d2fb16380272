/** Concrete formulas: the trees they parse to, the inputs that are rejected, and the
    tables of the binary operators over two variables. */
module Scenarios {
  import opened Syntax
  import opened Grammar
  import opened GrammarFacts
  import opened TruthTable

  /** A token whose first character does not occur in the window is not found. */
  lemma {:induction false} NotFound(s: string, sub: string, lo: nat, end: int)
    requires |sub| > 0 && end <= |s|
    requires forall k :: lo <= k < end ==> s[k] != sub[0]
    ensures Find(s, sub, lo, end) == -1
    decreases end
  {
    if lo <= end - |sub| {
      assert s[end - |sub|..end][0] == s[end - |sub|];
      NotFound(s, sub, lo, end - 1);
    }
  }

  /** Without the first character of an operator in the span there is nothing to split at. */
  lemma Absent(s: string, op: string, l: int, r: int)
    requires IsOperator(op) && 0 <= l <= r < |s|
    requires forall k :: l <= k <= r ==> s[k] != op[0]
    ensures JointRule(s, op, l, r).None?
  {
    NotFound(s, op, l, r + 1);
    assert JointRule(s, op, l, r) == JointFrom(s, op, l, r, -1);
  }

  /** The split search stops at a candidate whose two operands parse. */
  lemma SplitsHere(s: string, op: string, l: int, r: int, i: int, x: Expr, y: Expr)
    requires IsOperator(op) && 0 <= l <= r < |s| && 0 <= i && IsCandidate(s, op, l, r, i)
    requires Parse(s, l, i - 1) == Some(x) && Parse(s, i + |op|, r) == Some(y)
    ensures JointFrom(s, op, l, r, i) == Some((x, y))
  {
  }

  /** A span whose earlier rules fail and whose implication split succeeds is that
      implication. */
  lemma ParsesAsImplication(s: string, l: int, r: int)
    requires 0 <= l < r < |s|
    requires s[l] != '(' && IffRule(s, l, r).None? && ImpliesRule(s, l, r).Some?
    ensures Parse(s, l, r) == ImpliesRule(s, l, r)
  {
    assert ParenRule(s, l, r).None?;
    assert TerminalRule(s, l, r).None?;
  }

  /** A span whose earlier rules fail and whose conjunction split succeeds is that
      conjunction. */
  lemma ParsesAsConjunction(s: string, l: int, r: int)
    requires 0 <= l < r < |s|
    requires ParenRule(s, l, r).None? && IffRule(s, l, r).None?
    requires ImpliesRule(s, l, r).None? && DisjRule(s, l, r).None? && ConjRule(s, l, r).Some?
    ensures Parse(s, l, r) == ConjRule(s, l, r)
  {
    assert TerminalRule(s, l, r).None?;
  }

  // ----- x->y->z -----

  /** "x->y" for letters x and y. */
  lemma LetterImplication(s: string, l: int)
    requires 0 <= l && l + 3 < |s|
    requires IsLower(s[l]) && s[l + 1] == '-' && s[l + 2] == '>' && IsLower(s[l + 3])
    ensures Parse(s, l, l + 3) == Some(Implies(Var(s[l]), Var(s[l + 3])))
  {
    var r := l + 3;
    assert IffRule(s, l, r).None? by {
      assert forall k {:trigger s[k]} :: l <= k <= r ==> k == l || k == l + 1 || k == l + 2 || k == l + 3;
      Absent(s, "<->", l, r);
    }
    assert Find(s, "->", l, r + 1) == l + 1 by {
      assert s[l + 2..l + 4][0] != "->"[0] && s[l + 1..l + 3] == "->";
    }
    assert JointFrom(s, "->", l, r, l + 1) == Some((Var(s[l]), Var(s[r]))) by {
      SingleCharacter(s, l);
      SingleCharacter(s, r);
      SplitsHere(s, "->", l, r, l + 1, Var(s[l]), Var(s[r]));
    }
    ParsesAsImplication(s, l, r);
  }

  /** "x->y->z" for letters x, y and z: split at the rightmost `->`. */
  lemma ChainedImplication(s: string, l: int)
    requires 0 <= l && l + 6 < |s|
    requires IsLower(s[l]) && s[l + 1] == '-' && s[l + 2] == '>' && IsLower(s[l + 3])
    requires s[l + 4] == '-' && s[l + 5] == '>' && IsLower(s[l + 6])
    ensures Parse(s, l, l + 6) == Some(Implies(Implies(Var(s[l]), Var(s[l + 3])), Var(s[l + 6])))
  {
    var r := l + 6;
    assert IffRule(s, l, r).None? by {
      assert forall k {:trigger s[k]} :: l <= k <= r ==> k == l || k == l + 1 || k == l + 2 || k == l + 3 || k == l + 4 ||
                                                         k == l + 5 || k == l + 6;
      Absent(s, "<->", l, r);
    }
    assert Find(s, "->", l, r + 1) == l + 4 by {
      assert s[l + 5..l + 7][0] != "->"[0] && s[l + 4..l + 6] == "->";
    }
    var x := Implies(Var(s[l]), Var(s[l + 3]));
    assert JointFrom(s, "->", l, r, l + 4) == Some((x, Var(s[r]))) by {
      LetterImplication(s, l);
      SingleCharacter(s, r);
      SplitsHere(s, "->", l, r, l + 4, x, Var(s[r]));
    }
    ParsesAsImplication(s, l, r);
  }

  /** Chained implications group to the left: the rightmost `->` is tried first and both
      of its sides parse. */
  lemma ChainedImpliesGroupsLeft(x: char, y: char, z: char)
    requires IsLower(x) && IsLower(y) && IsLower(z)
    ensures ParseFormula([x, '-', '>', y, '-', '>', z]) == Some(Implies(Implies(Var(x), Var(y)), Var(z)))
  {
    var s := [x, '-', '>', y, '-', '>', z];
    StripSpacesKeeps(s);
    ChainedImplication(s, 0);
  }

  // ----- (x)&(y) -----

  /** "(x)" for a letter x. */
  lemma BracketedLetter(s: string, l: int)
    requires 0 <= l && l + 2 < |s|
    requires s[l] == '(' && IsLower(s[l + 1]) && s[l + 2] == ')'
    ensures Parse(s, l, l + 2) == Some(Var(s[l + 1]))
  {
    SingleCharacter(s, l + 1);
    ParenKeepsInterior(s, l, l + 2);
  }

  /** "x)" for a letter x has no parse. */
  lemma LetterThenClose(s: string, l: int)
    requires 0 <= l && l + 1 < |s|
    requires IsLower(s[l]) && s[l + 1] == ')'
    ensures Parse(s, l, l + 1).None?
  {
    var r := l + 1;
    assert forall k {:trigger s[k]} :: l <= k <= r ==> k == l || k == r;
    Absent(s, "<->", l, r);
    Absent(s, "->", l, r);
    Absent(s, "|", l, r);
    Absent(s, "&", l, r);
    LadderFails(s, l, r);
  }

  /** The only `&` of "x)&(y" leaves "x)" on its left, so it is no split. */
  lemma InteriorHasNoConjunction(s: string, l: int)
    requires 0 <= l && l + 4 < |s|
    requires IsLower(s[l]) && s[l + 1] == ')' && s[l + 2] == '&' && s[l + 3] == '(' && IsLower(s[l + 4])
    ensures JointRule(s, "&", l, l + 4).None?
  {
    var r := l + 4;
    assert Find(s, "&", l, r + 1) == l + 2 by {
      assert s[l + 4..l + 5][0] != "&"[0];
      assert Find(s, "&", l, r + 1) == Find(s, "&", l, r);
      assert s[l + 3..l + 4][0] != "&"[0];
      assert Find(s, "&", l, r) == Find(s, "&", l, r - 1);
      assert s[l + 2..l + 3] == "&";
    }
    assert NextCandidate(s, "&", l, l + 2) == -1 by {
      assert s[l..l + 1][0] != "&"[0];
    }
    LetterThenClose(s, l);
    assert JointFrom(s, "&", l, r, l + 2) == JointFrom(s, "&", l, r, -1);
  }

  /** "x)&(y" has no parse. */
  lemma InteriorFails(s: string, l: int)
    requires 0 <= l && l + 4 < |s|
    requires IsLower(s[l]) && s[l + 1] == ')' && s[l + 2] == '&' && s[l + 3] == '(' && IsLower(s[l + 4])
    ensures Parse(s, l, l + 4).None?
  {
    var r := l + 4;
    InteriorHasNoConjunction(s, l);
    assert forall k {:trigger s[k]} :: l <= k <= r ==> k == l || k == l + 1 || k == l + 2 || k == l + 3 || k == l + 4;
    Absent(s, "<->", l, r);
    Absent(s, "->", l, r);
    Absent(s, "|", l, r);
    LadderFails(s, l, r);
  }

  /** "(x)&(y)" splits at its `&` into the two bracketed letters. */
  lemma BracketedConjunction(s: string, l: int)
    requires 0 <= l && l + 6 < |s|
    requires s[l] == '(' && IsLower(s[l + 1]) && s[l + 2] == ')' && s[l + 3] == '&'
    requires s[l + 4] == '(' && IsLower(s[l + 5]) && s[l + 6] == ')'
    ensures ConjRule(s, l, l + 6) == Some(And(Var(s[l + 1]), Var(s[l + 5])))
  {
    var r := l + 6;
    assert Find(s, "&", l, r + 1) == l + 3 by {
      assert s[l + 6..l + 7][0] != "&"[0];
      assert Find(s, "&", l, r + 1) == Find(s, "&", l, r);
      assert s[l + 5..l + 6][0] != "&"[0];
      assert Find(s, "&", l, r) == Find(s, "&", l, r - 1);
      assert s[l + 4..l + 5][0] != "&"[0];
      assert Find(s, "&", l, r - 1) == Find(s, "&", l, r - 2);
      assert s[l + 3..l + 4] == "&";
    }
    BracketedLetter(s, l);
    BracketedLetter(s, l + 4);
    SplitsHere(s, "&", l, r, l + 3, Var(s[l + 1]), Var(s[l + 5]));
  }

  /** "(x)&(y)" as a span: the bracket rule fails on the interior "x)&(y", and the ladder
      goes on to split at `&`. */
  lemma BracketRuleFallsThrough(s: string, l: int)
    requires 0 <= l && l + 6 < |s|
    requires s[l] == '(' && IsLower(s[l + 1]) && s[l + 2] == ')' && s[l + 3] == '&'
    requires s[l + 4] == '(' && IsLower(s[l + 5]) && s[l + 6] == ')'
    ensures Parse(s, l, l + 6) == Some(And(Var(s[l + 1]), Var(s[l + 5])))
  {
    var r := l + 6;
    assert ParenRule(s, l, r).None? by {
      InteriorFails(s, l + 1);
    }
    assert IffRule(s, l, r).None? && ImpliesRule(s, l, r).None? && DisjRule(s, l, r).None? by {
      assert forall k {:trigger s[k]} :: l <= k <= r ==> k == l || k == l + 1 || k == l + 2 || k == l + 3 || k == l + 4 ||
                                                         k == l + 5 || k == l + 6;
      Absent(s, "<->", l, r);
      Absent(s, "->", l, r);
      Absent(s, "|", l, r);
    }
    BracketedConjunction(s, l);
    ParsesAsConjunction(s, l, r);
  }

  /** A bracketed first character and a bracketed last character do not make the whole
      formula one bracketed group. */
  lemma ParenthesisedOperands(x: char, y: char)
    requires IsLower(x) && IsLower(y)
    ensures ParseFormula(['(', x, ')', '&', '(', y, ')']) == Some(And(Var(x), Var(y)))
  {
    var s := ['(', x, ')', '&', '(', y, ')'];
    StripSpacesKeeps(s);
    BracketRuleFallsThrough(s, 0);
  }

  // ----- One operator between two terminals -----

  /** The tree of a one-character terminal. */
  function Leaf(c: char): Expr
    requires IsTerminalChar(c)
  {
    if IsLower(c) then Var(c) else Const(c == 'T')
  }

  /** "x&y" for terminals x and y. */
  lemma TerminalConjunction(s: string, l: int)
    requires 0 <= l && l + 2 < |s|
    requires IsTerminalChar(s[l]) && s[l + 1] == '&' && IsTerminalChar(s[l + 2])
    ensures Parse(s, l, l + 2) == Some(And(Leaf(s[l]), Leaf(s[l + 2])))
  {
    var r := l + 2;
    assert IffRule(s, l, r).None? && ImpliesRule(s, l, r).None? && DisjRule(s, l, r).None? by {
      assert forall k {:trigger s[k]} :: l <= k <= r ==> k == l || k == l + 1 || k == r;
      Absent(s, "<->", l, r);
      Absent(s, "->", l, r);
      Absent(s, "|", l, r);
    }
    assert Find(s, "&", l, r + 1) == l + 1 by {
      assert s[l + 2..l + 3][0] != "&"[0] && s[l + 1..l + 2] == "&";
    }
    SingleCharacter(s, l);
    SingleCharacter(s, r);
    SplitsHere(s, "&", l, r, l + 1, Leaf(s[l]), Leaf(s[r]));
    assert ParenRule(s, l, r).None?;
    ParsesAsConjunction(s, l, r);
  }

  /** "x|y" for terminals x and y. */
  lemma TerminalDisjunction(s: string, l: int)
    requires 0 <= l && l + 2 < |s|
    requires IsTerminalChar(s[l]) && s[l + 1] == '|' && IsTerminalChar(s[l + 2])
    ensures Parse(s, l, l + 2) == Some(Or(Leaf(s[l]), Leaf(s[l + 2])))
  {
    var r := l + 2;
    assert IffRule(s, l, r).None? && ImpliesRule(s, l, r).None? by {
      assert forall k {:trigger s[k]} :: l <= k <= r ==> k == l || k == l + 1 || k == r;
      Absent(s, "<->", l, r);
      Absent(s, "->", l, r);
    }
    assert Find(s, "|", l, r + 1) == l + 1 by {
      assert s[l + 2..l + 3][0] != "|"[0] && s[l + 1..l + 2] == "|";
    }
    SingleCharacter(s, l);
    SingleCharacter(s, r);
    SplitsHere(s, "|", l, r, l + 1, Leaf(s[l]), Leaf(s[r]));
    assert DisjRule(s, l, r) == Some(Or(Leaf(s[l]), Leaf(s[r])));
    assert ParenRule(s, l, r).None? && TerminalRule(s, l, r).None?;
  }

  /** "x<->y" for terminals x and y: the conjunction of the two implications. */
  lemma TerminalBiconditional(s: string, l: int)
    requires 0 <= l && l + 4 < |s|
    requires IsTerminalChar(s[l]) && s[l + 1] == '<' && s[l + 2] == '-' && s[l + 3] == '>'
    requires IsTerminalChar(s[l + 4])
    ensures Parse(s, l, l + 4) == Some(IffNode(Leaf(s[l]), Leaf(s[l + 4])))
  {
    var r := l + 4;
    assert Find(s, "<->", l, r + 1) == l + 1 by {
      assert s[l + 2..l + 5][0] != "<->"[0] && s[l + 1..l + 4] == "<->";
    }
    SingleCharacter(s, l);
    SingleCharacter(s, r);
    SplitsHere(s, "<->", l, r, l + 1, Leaf(s[l]), Leaf(s[r]));
    assert IffRule(s, l, r) == Some(IffNode(Leaf(s[l]), Leaf(s[r])));
    assert ParenRule(s, l, r).None? && TerminalRule(s, l, r).None?;
  }

  /** "~x" for a terminal x. */
  lemma NegatedTerminal(s: string, l: int)
    requires 0 <= l && l + 1 < |s| && s[l] == '~' && IsTerminalChar(s[l + 1])
    ensures Parse(s, l, l + 1) == Some(Not(Leaf(s[l + 1])))
  {
    var r := l + 1;
    assert forall k {:trigger s[k]} :: l <= k <= r ==> k == l || k == r;
    Absent(s, "<->", l, r);
    Absent(s, "->", l, r);
    Absent(s, "|", l, r);
    Absent(s, "&", l, r);
    SingleCharacter(s, r);
    assert ParenRule(s, l, r).None? && TerminalRule(s, l, r).None?;
  }

  // ----- Rejected inputs -----

  /** A dangling operator and a bare negation sign are rejected. */
  lemma MalformedInputs()
    ensures ParseFormula("a&").None?
    ensures ParseFormula("&a").None?
    ensures ParseFormula("~").None?
  {
    TrailingOperatorFails("a", "&");
    assert "a" + "&" == "a&";
    LeadingOperatorFails("&", "a");
    assert "&" + "a" == "&a";
    StripSpacesKeeps("~");
    BadEndFails("~", 0, 0);
  }

  /** "(x" has no closing bracket, no operator and no leading `~`. */
  lemma UnclosedBracket(s: string, l: int)
    requires 0 <= l && l + 1 < |s| && s[l] == '(' && IsLower(s[l + 1])
    ensures Parse(s, l, l + 1).None?
  {
    var r := l + 1;
    assert forall k {:trigger s[k]} :: l <= k <= r ==> k == l || k == r;
    Absent(s, "<->", l, r);
    Absent(s, "->", l, r);
    Absent(s, "|", l, r);
    Absent(s, "&", l, r);
    LadderFails(s, l, r);
  }

  /** "()" encloses the empty span, which never parses. */
  lemma EmptyBrackets(s: string, l: int)
    requires 0 <= l && l + 1 < |s| && s[l] == '(' && s[l + 1] == ')'
    ensures Parse(s, l, l + 1).None?
  {
    var r := l + 1;
    assert ParenRule(s, l, r).None?;
    assert forall k {:trigger s[k]} :: l <= k <= r ==> k == l || k == r;
    Absent(s, "<->", l, r);
    Absent(s, "->", l, r);
    Absent(s, "|", l, r);
    Absent(s, "&", l, r);
    LadderFails(s, l, r);
  }

  /** "x~y": `~` is a prefix, not an infix, operator. */
  lemma NegationIsNotInfix(s: string, l: int)
    requires 0 <= l && l + 2 < |s| && IsLower(s[l]) && s[l + 1] == '~' && IsLower(s[l + 2])
    ensures Parse(s, l, l + 2).None?
  {
    var r := l + 2;
    assert forall k {:trigger s[k]} :: l <= k <= r ==> k == l || k == l + 1 || k == r;
    Absent(s, "<->", l, r);
    Absent(s, "->", l, r);
    Absent(s, "|", l, r);
    Absent(s, "&", l, r);
    LadderFails(s, l, r);
  }

  // ----- Tables over two variables -----

  /** The four rows over the variables a and b come in the order FF, FT, TF, TT. */
  lemma TwoVariableOrder()
    ensures Bits(0, 2) == [false, false]
    ensures Bits(1, 2) == [false, true]
    ensures Bits(2, 2) == [true, false]
    ensures Bits(3, 2) == [true, true]
  {
    assert Bits(0, 1) == [false] && Bits(1, 1) == [true];
  }

  /** The table of `e` over two names x and y, one row per assignment in enumeration
      order. */
  lemma TwoVariableRows(e: Expr, x: char, y: char)
    requires x != y && Vars(e) <= {x, y}
    ensures RowAt(e, [x, y], 0) == Row([false, false], Eval(e, map[x := false, y := false]))
    ensures RowAt(e, [x, y], 1) == Row([false, true], Eval(e, map[x := false, y := true]))
    ensures RowAt(e, [x, y], 2) == Row([true, false], Eval(e, map[x := true, y := false]))
    ensures RowAt(e, [x, y], 3) == Row([true, true], Eval(e, map[x := true, y := true]))
  {
    TwoVariableOrder();
    var names := [x, y];
    assert names[..1] == [x] && names[..0] == [];
    forall v: seq<bool> | |v| == 2
      ensures AssignmentOf(names, v) == map[x := v[0], y := v[1]]
    {
      assert v[..1][..0] == [];
      assert AssignmentOf(names[..1], v[..1]) == map[x := v[0]];
    }
  }

  /** Conjunction is true only in the last row. */
  lemma ConjunctionTable(x: char, y: char)
    requires x != y
    ensures forall k :: 0 <= k < 4 ==> RowAt(And(Var(x), Var(y)), [x, y], k).result == (k == 3)
  {
    TwoVariableRows(And(Var(x), Var(y)), x, y);
    forall k | 0 <= k < 4
      ensures RowAt(And(Var(x), Var(y)), [x, y], k).result == (k == 3)
    {
      assert k == 0 || k == 1 || k == 2 || k == 3;
    }
  }

  /** Disjunction is false only in the first row. */
  lemma DisjunctionTable(x: char, y: char)
    requires x != y
    ensures forall k :: 0 <= k < 4 ==> RowAt(Or(Var(x), Var(y)), [x, y], k).result == (k != 0)
  {
    TwoVariableRows(Or(Var(x), Var(y)), x, y);
    forall k | 0 <= k < 4
      ensures RowAt(Or(Var(x), Var(y)), [x, y], k).result == (k != 0)
    {
      assert k == 0 || k == 1 || k == 2 || k == 3;
    }
  }

  /** Implication is false only in row 2, where x is true and y is false. */
  lemma ImplicationTable(x: char, y: char)
    requires x != y
    ensures forall k :: 0 <= k < 4 ==> RowAt(Implies(Var(x), Var(y)), [x, y], k).result == (k != 2)
  {
    TwoVariableRows(Implies(Var(x), Var(y)), x, y);
    forall k | 0 <= k < 4
      ensures RowAt(Implies(Var(x), Var(y)), [x, y], k).result == (k != 2)
    {
      assert k == 0 || k == 1 || k == 2 || k == 3;
    }
  }

  /** The biconditional, built from two implications, is true exactly in rows 0 and 3,
      where x and y agree. */
  lemma BiconditionalTable(x: char, y: char)
    requires x != y
    ensures forall k :: 0 <= k < 4 ==> RowAt(IffNode(Var(x), Var(y)), [x, y], k).result == (k == 0 || k == 3)
  {
    TwoVariableRows(IffNode(Var(x), Var(y)), x, y);
    IffMeansEqual(Var(x), Var(y), map[x := false, y := false]);
    IffMeansEqual(Var(x), Var(y), map[x := false, y := true]);
    IffMeansEqual(Var(x), Var(y), map[x := true, y := false]);
    IffMeansEqual(Var(x), Var(y), map[x := true, y := true]);
    forall k | 0 <= k < 4
      ensures RowAt(IffNode(Var(x), Var(y)), [x, y], k).result == (k == 0 || k == 3)
    {
      assert k == 0 || k == 1 || k == 2 || k == 3;
    }
  }

  /** Negation over one variable: true in row 0, where the variable is false, and false
      in row 1. */
  lemma NegationTable(x: char)
    ensures RowAt(Not(Var(x)), [x], 0) == Row([false], true)
    ensures RowAt(Not(Var(x)), [x], 1) == Row([true], false)
  {
    assert Bits(0, 1) == [false] && Bits(1, 1) == [true];
    var names := [x];
    assert names[..0] == [];
    forall v: seq<bool> | |v| == 1
      ensures AssignmentOf(names, v) == map[x := v[0]]
    {
      assert v[..0] == [];
    }
    assert AssignmentOf(names, [false]) == map[x := false];
    assert AssignmentOf(names, [true]) == map[x := true];
    assert RowAt(Not(Var(x)), names, 0) == Row(Bits(0, 1), Eval(Not(Var(x)), AssignmentOf(names, Bits(0, 1))));
    assert RowAt(Not(Var(x)), names, 1) == Row(Bits(1, 1), Eval(Not(Var(x)), AssignmentOf(names, Bits(1, 1))));
    assert Eval(Not(Var(x)), map[x := false]) && !Eval(Not(Var(x)), map[x := true]);
  }

  /** Row 0 of the table of a formula without variables: no values, and the formula's value. */
  lemma ConstantTable(e: Expr)
    requires Vars(e) == {}
    ensures RowAt(e, [], 0) == Row([], Eval(e, map[]))
  {
    assert Bits(0, 0) == [];
  }
}
