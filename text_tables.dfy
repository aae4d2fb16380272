/** Whole formulas from their text to their truth table: the tree each text parses to,
    the variables the table is built over, and the rows' results. */
module TextTables {
  import opened Syntax
  import opened Grammar
  import opened GrammarFacts
  import opened Registry
  import opened TruthTable
  import opened Session
  import opened Scenarios

  /** A strictly increasing listing of two letters x < y is [x, y]. */
  lemma SortedPair(n: seq<char>, x: char, y: char)
    requires StrictlySorted(n) && x < y
    requires forall c :: c in n <==> c == x || c == y
    ensures n == [x, y]
  {
    assert x in n && y in n;
    var i :| 0 <= i < |n| && n[i] == x;
    var j :| 0 <= j < |n| && n[j] == y;
    assert n[0] in n && n[|n| - 1] in n;
    assert i == 0 && j == |n| - 1;
    assert n[1] in n;
  }

  /** Two distinct letters are listed in alphabetical order. */
  lemma TwoNames(x: char, y: char)
    requires IsLower(x) && IsLower(y) && x < y
    ensures SortedNames({x, y}) == [x, y]
  {
    SortedPair(SortedNames({x, y}), x, y);
  }

  /** The variables of "xoy" for letters x < y and an operator token o are x and y, in
      that order. */
  lemma PairNames(x: char, op: string, y: char)
    requires IsLower(x) && IsLower(y) && x < y && IsOperator(op)
    ensures FormulaNames([x] + op + [y]) == [x, y]
  {
    var t := [x] + op + [y];
    assert StripSpaces(t) == t by {
      assert ' ' !in t by {
        assert ' ' !in op;
        assert t == [x] + (op + [y]);
      }
      StripSpacesKeeps(t);
    }
    assert Letters(t) == {x, y} by {
      LettersAppend([x] + op, [y]);
      LettersAppend([x], op);
      OperatorHasNoLetters(op);
      assert [x][1..] == [] && [y][1..] == [];
    }
    assert SortedNames({x, y}) == [x, y] by {
      TwoNames(x, y);
    }
  }

  /** A text without spaces is parsed as the span that covers it. */
  lemma FormulaIsSpan(t: string)
    requires ' ' !in t
    ensures ParseFormula(t) == Parse(t, 0, |t| - 1)
  {
    StripSpacesKeeps(t);
  }

  /** The table of the text "x&y": true only in the last row. */
  lemma ConjunctionText(x: char, y: char)
    requires IsLower(x) && IsLower(y) && x < y
    ensures var t := [x, '&', y];
      && ParseFormula(t) == Some(And(Var(x), Var(y)))
      && FormulaNames(t) == [x, y]
      && forall k :: 0 <= k < 4 ==> RowAt(ParseFormula(t).value, FormulaNames(t), k).result == (k == 3)
  {
    var t := [x, '&', y];
    assert ParseFormula(t) == Some(And(Var(x), Var(y))) by {
      FormulaIsSpan(t);
      TerminalConjunction(t, 0);
    }
    assert FormulaNames(t) == [x, y] by {
      assert [x] + "&" + [y] == t;
      PairNames(x, "&", y);
    }
    ConjunctionTable(x, y);
  }

  /** The table of the text "x|y": false only in the first row. */
  lemma DisjunctionText(x: char, y: char)
    requires IsLower(x) && IsLower(y) && x < y
    ensures var t := [x, '|', y];
      && ParseFormula(t) == Some(Or(Var(x), Var(y)))
      && FormulaNames(t) == [x, y]
      && forall k :: 0 <= k < 4 ==> RowAt(ParseFormula(t).value, FormulaNames(t), k).result == (k != 0)
  {
    var t := [x, '|', y];
    assert ParseFormula(t) == Some(Or(Var(x), Var(y))) by {
      FormulaIsSpan(t);
      TerminalDisjunction(t, 0);
    }
    assert FormulaNames(t) == [x, y] by {
      assert [x] + "|" + [y] == t;
      PairNames(x, "|", y);
    }
    DisjunctionTable(x, y);
  }

  /** The table of the text "x->y": false only in the row where x is true and y false. */
  lemma ImplicationText(x: char, y: char)
    requires IsLower(x) && IsLower(y) && x < y
    ensures var t := [x, '-', '>', y];
      && ParseFormula(t) == Some(Implies(Var(x), Var(y)))
      && FormulaNames(t) == [x, y]
      && forall k :: 0 <= k < 4 ==> RowAt(ParseFormula(t).value, FormulaNames(t), k).result == (k != 2)
  {
    var t := [x, '-', '>', y];
    assert ParseFormula(t) == Some(Implies(Var(x), Var(y))) by {
      FormulaIsSpan(t);
      LetterImplication(t, 0);
    }
    assert FormulaNames(t) == [x, y] by {
      assert [x] + "->" + [y] == t;
      PairNames(x, "->", y);
    }
    ImplicationTable(x, y);
  }

  /** The table of the text "x<->y": true exactly in the rows where x and y agree. */
  lemma BiconditionalText(x: char, y: char)
    requires IsLower(x) && IsLower(y) && x < y
    ensures var t := [x, '<', '-', '>', y];
      && ParseFormula(t) == Some(IffNode(Var(x), Var(y)))
      && FormulaNames(t) == [x, y]
      && forall k :: 0 <= k < 4 ==> RowAt(ParseFormula(t).value, FormulaNames(t), k).result == (k == 0 || k == 3)
  {
    var t := [x, '<', '-', '>', y];
    assert ParseFormula(t) == Some(IffNode(Var(x), Var(y))) by {
      FormulaIsSpan(t);
      TerminalBiconditional(t, 0);
    }
    assert FormulaNames(t) == [x, y] by {
      assert [x] + "<->" + [y] == t;
      PairNames(x, "<->", y);
    }
    BiconditionalTable(x, y);
  }

  /** The listing of a single letter is that letter. */
  lemma SortedSingle(n: seq<char>, x: char)
    requires StrictlySorted(n)
    requires forall c :: c in n <==> c == x
    ensures n == [x]
  {
    assert x in n;
    assert n[0] in n && n[|n| - 1] in n;
    assert n[0] == n[|n| - 1];
  }

  /** The listing of no letters is empty. */
  lemma {:induction false} NoKeysNoNames(k: nat)
    requires k <= 26
    ensures SortedFrom({}, k) == []
    decreases 26 - k
  {
    if k < 26 {
      NoKeysNoNames(k + 1);
    }
  }

  /** The table of the text "~x": two rows, true where x is false. */
  lemma NegationText(x: char)
    requires IsLower(x)
    ensures var t := ['~', x];
      && ParseFormula(t) == Some(Not(Var(x)))
      && FormulaNames(t) == [x]
      && RowAt(ParseFormula(t).value, FormulaNames(t), 0) == Row([false], true)
      && RowAt(ParseFormula(t).value, FormulaNames(t), 1) == Row([true], false)
  {
    var t := ['~', x];
    assert ParseFormula(t) == Some(Not(Var(x))) by {
      FormulaIsSpan(t);
      NegatedTerminal(t, 0);
    }
    assert FormulaNames(t) == [x] by {
      assert Letters(t) == {x} by {
        assert t == ['~'] + [x];
        LettersAppend(['~'], [x]);
        assert ['~'][1..] == [] && [x][1..] == [];
      }
      StripSpacesKeeps(t);
      SortedSingle(SortedNames({x}), x);
    }
    NegationTable(x);
  }

  /** A text without letters has no variables, so its table has exactly one row. */
  lemma NoLettersOneRow(text: string)
    requires Letters(StripSpaces(text)) == {}
    ensures FormulaNames(text) == []
    ensures Pow2(|FormulaNames(text)|) == 1
  {
    NoKeysNoNames(0);
  }

  /** The parse of a conjunction of two constants. */
  lemma ConstantConjunctionParse(x: char, y: char)
    requires (x == 'T' || x == 'F') && (y == 'T' || y == 'F')
    ensures ParseFormula([x, '&', y]) == Some(And(Const(x == 'T'), Const(y == 'T')))
  {
    FormulaIsSpan([x, '&', y]);
    TerminalConjunction([x, '&', y], 0);
  }

  /** The text "T&F", or any conjunction of two constants: one row, with no variable
      values, holding the conjunction of the two constants. */
  lemma ConstantConjunctionText(x: char, y: char)
    requires (x == 'T' || x == 'F') && (y == 'T' || y == 'F')
    ensures var t := [x, '&', y];
      && ParseFormula(t) == Some(And(Const(x == 'T'), Const(y == 'T')))
      && FormulaNames(t) == []
      && Pow2(|FormulaNames(t)|) == 1
      && RowAt(ParseFormula(t).value, FormulaNames(t), 0) == Row([], x == 'T' && y == 'T')
  {
    var t := [x, '&', y];
    ConstantConjunctionParse(x, y);
    assert FormulaNames(t) == [] by {
      NoLetters(t);
      StripSpacesKeeps(t);
      NoLettersOneRow(t);
    }
    assert RowAt(And(Const(x == 'T'), Const(y == 'T')), [], 0) == Row([], x == 'T' && y == 'T') by {
      ConstantTable(And(Const(x == 'T'), Const(y == 'T')));
    }
  }
}
