/** Properties of the span parser of module Grammar: what one-character spans give, which
    spans can never parse, the variables of a parse, and what the split search finds. */
module GrammarFacts {
  import opened Syntax
  import opened Grammar

  // ----- Strings -----

  lemma {:induction false} LettersAppend(a: string, b: string)
    ensures Letters(a + b) == Letters(a) + Letters(b)
  {
    if a == [] {
      assert a + b == b;
    } else {
      assert (a + b)[1..] == a[1..] + b;
      LettersAppend(a[1..], b);
    }
  }

  lemma LettersSplit(s: string, l: int, m: int, r: int)
    requires 0 <= l <= m <= r + 1 <= |s|
    ensures Letters(s[l..r + 1]) == Letters(s[l..m]) + Letters(s[m..r + 1])
  {
    assert s[l..r + 1] == s[l..m] + s[m..r + 1];
    LettersAppend(s[l..m], s[m..r + 1]);
  }

  lemma LettersOfOne(s: string, k: int)
    requires 0 <= k < |s|
    ensures Letters(s[k..k + 1]) == if IsLower(s[k]) then {s[k]} else {}
  {
    assert s[k..k + 1][1..] == [];
  }

  lemma {:induction false} NoLetters(t: string)
    requires forall k :: 0 <= k < |t| ==> !IsLower(t[k])
    ensures Letters(t) == {}
  {
    if t != [] {
      NoLetters(t[1..]);
    }
  }

  /** No operator token contains a variable letter. */
  lemma OperatorHasNoLetters(op: string)
    requires IsOperator(op)
    ensures Letters(op) == {}
  {
    NoLetters(op);
  }

  /** No character of an operator token can begin a formula. */
  lemma OperatorCharsCannotStart(op: string, k: int)
    requires IsOperator(op) && 0 <= k < |op|
    ensures !IsStartChar(op[k])
  {
  }

  lemma {:induction false} StripSpacesAppend(a: string, b: string)
    ensures StripSpaces(a + b) == StripSpaces(a) + StripSpaces(b)
  {
    if a == [] {
      assert a + b == b;
    } else {
      var head := if a[0] == ' ' then [] else [a[0]];
      StripSpacesAppend(a[1..], b);
      assert StripSpaces(a + b) == head + StripSpaces(a[1..] + b) by {
        assert (a + b)[0] == a[0] && (a + b)[1..] == a[1..] + b;
      }
      assert head + (StripSpaces(a[1..]) + StripSpaces(b)) == (head + StripSpaces(a[1..])) + StripSpaces(b);
    }
  }

  /** Removing spaces keeps every other character as often as it occurs. */
  lemma {:induction false} StripSpacesCounts(text: string)
    ensures forall c :: c != ' ' ==> multiset(StripSpaces(text))[c] == multiset(text)[c]
  {
    if text != [] {
      var tail := text[1..];
      var head := if text[0] == ' ' then [] else [text[0]];
      StripSpacesCounts(tail);
      assert multiset(text) == multiset{text[0]} + multiset(tail) by {
        assert text == [text[0]] + tail;
      }
      assert multiset(StripSpaces(text)) == multiset(head) + multiset(StripSpaces(tail)) by {
        assert StripSpaces(text) == head + StripSpaces(tail);
      }
    }
  }

  /** A string without spaces is left as it is. */
  lemma {:induction false} StripSpacesKeeps(t: string)
    requires ' ' !in t
    ensures StripSpaces(t) == t
  {
    if t != [] {
      StripSpacesKeeps(t[1..]);
    }
  }

  /** Removing spaces twice is removing them once. */
  lemma StripSpacesIdempotent(text: string)
    ensures StripSpaces(StripSpaces(text)) == StripSpaces(text)
  {
    StripSpacesKeeps(StripSpaces(text));
  }

  // ----- One-character spans -----

  lemma JointOneCharacterFails(s: string, op: string, l: int)
    requires IsOperator(op) && 0 <= l < |s|
    ensures JointRule(s, op, l, l).None?
  {
    var i := Find(s, op, l, l + 1);
    if 0 <= i {
      assert i == l && Parse(s, l, i - 1).None?;
      assert NextCandidate(s, op, l, i) == -1;
      assert JointFrom(s, op, l, l, -1).None?;
    }
    assert JointFrom(s, op, l, l, i).None?;
  }

  /** A span of one character parses exactly as the terminal rule says: a variable for a
      lower-case letter, a constant for `T` and `F`, and nothing for any other character. */
  lemma SingleCharacter(s: string, l: int)
    requires 0 <= l < |s|
    ensures Parse(s, l, l) ==
      if IsLower(s[l]) then Some(Var(s[l]))
      else if s[l] == 'T' then Some(Const(true))
      else if s[l] == 'F' then Some(Const(false))
      else None
  {
    assert ParenRule(s, l, l).None?;
    JointOneCharacterFails(s, "<->", l);
    assert IffRule(s, l, l).None?;
    JointOneCharacterFails(s, "->", l);
    assert ImpliesRule(s, l, l).None?;
    JointOneCharacterFails(s, "|", l);
    assert DisjRule(s, l, l).None?;
    JointOneCharacterFails(s, "&", l);
    assert ConjRule(s, l, l).None?;
    assert NegateRule(s, l, l).None?;
  }

  // ----- Spans that never parse -----

  /** A span whose first character cannot begin a formula has no parse. */
  lemma {:induction false} BadStartFails(s: string, l: int, r: int)
    requires 0 <= l <= r < |s| && !IsStartChar(s[l])
    ensures Parse(s, l, r).None?
    decreases r - l + 1, 1, 0
  {
    assert ParenRule(s, l, r).None? && TerminalRule(s, l, r).None?;
    BadStartJointFails(s, "<->", l, r, Find(s, "<->", l, r + 1));
    assert IffRule(s, l, r).None?;
    BadStartJointFails(s, "->", l, r, Find(s, "->", l, r + 1));
    assert ImpliesRule(s, l, r).None?;
    BadStartJointFails(s, "|", l, r, Find(s, "|", l, r + 1));
    assert DisjRule(s, l, r).None?;
    BadStartJointFails(s, "&", l, r, Find(s, "&", l, r + 1));
    assert ConjRule(s, l, r).None?;
    assert NegateRule(s, l, r).None?;
  }

  lemma {:induction false} BadStartJointFails(s: string, op: string, l: int, r: int, i: int)
    requires IsOperator(op) && 0 <= l <= r < |s| && IsCandidate(s, op, l, r, i)
    requires !IsStartChar(s[l])
    ensures JointFrom(s, op, l, r, i).None?
    decreases r - l + 1, 0, i + 1
  {
    if 0 <= i {
      if l <= i - 1 {
        BadStartFails(s, l, i - 1);
      }
      BadStartJointFails(s, op, l, r, NextCandidate(s, op, l, i));
    }
  }

  /** A span whose last character cannot end a formula has no parse. */
  lemma {:induction false} BadEndFails(s: string, l: int, r: int)
    requires 0 <= l <= r < |s| && !IsEndChar(s[r])
    ensures Parse(s, l, r).None?
    decreases r - l + 1, 1, 0
  {
    assert JointRule(s, "<->", l, r).None? by {
      BadEndJointFails(s, "<->", l, r, Find(s, "<->", l, r + 1));
    }
    assert JointRule(s, "->", l, r).None? by {
      BadEndJointFails(s, "->", l, r, Find(s, "->", l, r + 1));
    }
    assert JointRule(s, "|", l, r).None? by {
      BadEndJointFails(s, "|", l, r, Find(s, "|", l, r + 1));
    }
    assert JointRule(s, "&", l, r).None? by {
      BadEndJointFails(s, "&", l, r, Find(s, "&", l, r + 1));
    }
    assert NegateRule(s, l, r).None? by {
      if l + 1 <= r {
        BadEndFails(s, l + 1, r);
      }
    }
    LadderFails(s, l, r);
  }

  /** When no rule applies to a non-empty span, the span has no parse. */
  lemma LadderFails(s: string, l: int, r: int)
    requires 0 <= l <= r < |s|
    requires ParenRule(s, l, r).None? && TerminalRule(s, l, r).None?
    requires JointRule(s, "<->", l, r).None? && JointRule(s, "->", l, r).None?
    requires JointRule(s, "|", l, r).None? && JointRule(s, "&", l, r).None?
    requires NegateRule(s, l, r).None?
    ensures Parse(s, l, r).None?
  {
  }

  lemma {:induction false} BadEndJointFails(s: string, op: string, l: int, r: int, i: int)
    requires IsOperator(op) && 0 <= l <= r < |s| && IsCandidate(s, op, l, r, i)
    requires !IsEndChar(s[r])
    ensures JointFrom(s, op, l, r, i).None?
    decreases r - l + 1, 0, i + 1
  {
    if 0 <= i {
      if i + |op| <= r {
        BadEndFails(s, i + |op|, r);
      }
      BadEndJointFails(s, op, l, r, NextCandidate(s, op, l, i));
    }
  }

  lemma {:induction false} StripSpacesOfSpaces(text: string)
    requires forall k :: 0 <= k < |text| ==> text[k] == ' '
    ensures StripSpaces(text) == []
  {
    if text != [] {
      StripSpacesOfSpaces(text[1..]);
    }
  }

  /** The empty formula, or one of spaces only, has no parse. */
  lemma EmptyFormulaFails(text: string)
    requires forall k :: 0 <= k < |text| ==> text[k] == ' '
    ensures ParseFormula(text).None?
  {
    StripSpacesOfSpaces(text);
  }

  /** A formula that begins with a binary operator has no parse. */
  lemma LeadingOperatorFails(op: string, t: string)
    requires IsOperator(op)
    ensures ParseFormula(op + t).None?
  {
    StripSpacesAppend(op, t);
    StripSpacesKeeps(op);
    var s := StripSpaces(op + t);
    assert s[0] == op[0];
    OperatorCharsCannotStart(op, 0);
    BadStartFails(s, 0, |s| - 1);
  }

  /** A formula that ends with a binary operator has no parse. */
  lemma TrailingOperatorFails(t: string, op: string)
    requires IsOperator(op)
    ensures ParseFormula(t + op).None?
  {
    StripSpacesAppend(t, op);
    StripSpacesKeeps(op);
    var s := StripSpaces(t + op);
    assert s[|s| - 1] == op[|op| - 1];
    BadEndFails(s, 0, |s| - 1);
  }

  // ----- Rule order -----

  /** A bracketed span whose interior parses gives the interior's tree. */
  lemma ParenKeepsInterior(s: string, l: int, r: int)
    requires 0 <= l < r < |s| && s[l] == '(' && s[r] == ')'
    requires Parse(s, l + 1, r - 1).Some?
    ensures Parse(s, l, r) == Parse(s, l + 1, r - 1)
  {
  }

  // ----- Variables of a parse -----

  /** A successful parse mentions exactly the variable letters of its span. */
  lemma {:induction false} ParseVars(s: string, l: int, r: int)
    requires 0 <= l <= r + 1 <= |s| && Parse(s, l, r).Some?
    ensures Vars(Parse(s, l, r).value) == Letters(s[l..r + 1])
    decreases r - l + 1, 1, 0
  {
    if ParenRule(s, l, r).Some? {
      ParseVars(s, l + 1, r - 1);
      LettersSplit(s, l, l + 1, r);
      LettersSplit(s, l + 1, r, r);
      LettersOfOne(s, l);
      LettersOfOne(s, r);
    } else if TerminalRule(s, l, r).Some? {
      LettersOfOne(s, l);
    } else if IffRule(s, l, r).Some? {
      assert JointRule(s, "<->", l, r).Some?;
      JointVars(s, "<->", l, r, Find(s, "<->", l, r + 1));
    } else if ImpliesRule(s, l, r).Some? {
      assert JointRule(s, "->", l, r).Some?;
      JointVars(s, "->", l, r, Find(s, "->", l, r + 1));
    } else if DisjRule(s, l, r).Some? {
      assert JointRule(s, "|", l, r).Some?;
      JointVars(s, "|", l, r, Find(s, "|", l, r + 1));
    } else if ConjRule(s, l, r).Some? {
      assert JointRule(s, "&", l, r).Some?;
      JointVars(s, "&", l, r, Find(s, "&", l, r + 1));
    } else {
      ParseVars(s, l + 1, r);
      LettersSplit(s, l, l + 1, r);
      LettersOfOne(s, l);
    }
  }

  /** The letters of a span split at an occurrence of `op` are those of its two operands. */
  lemma OperandLetters(s: string, op: string, l: int, r: int, i: int)
    requires IsOperator(op) && 0 <= l <= r < |s| && IsCandidate(s, op, l, r, i) && i != -1
    ensures Letters(s[l..r + 1]) == Letters(s[l..i]) + Letters(s[i + |op|..r + 1])
  {
    LettersSplit(s, l, i, r);
    LettersSplit(s, i, i + |op|, r);
    OperatorHasNoLetters(op);
    assert s[i..i + |op|] == op;
  }

  lemma {:induction false} JointVars(s: string, op: string, l: int, r: int, i: int)
    requires IsOperator(op) && 0 <= l <= r < |s| && IsCandidate(s, op, l, r, i)
    requires JointFrom(s, op, l, r, i).Some?
    ensures Vars(JointFrom(s, op, l, r, i).value.0) + Vars(JointFrom(s, op, l, r, i).value.1)
            == Letters(s[l..r + 1])
    decreases r - l + 1, 0, i + 1
  {
    assert 0 <= i;
    var x, y := Parse(s, l, i - 1), Parse(s, i + |op|, r);
    if x.Some? && y.Some? {
      assert JointFrom(s, op, l, r, i) == Some((x.value, y.value));
      ParseVars(s, l, i - 1);
      ParseVars(s, i + |op|, r);
      assert s[l..i - 1 + 1] == s[l..i];
      OperandLetters(s, op, l, r, i);
    } else {
      JointVars(s, op, l, r, NextCandidate(s, op, l, i));
    }
  }

  // ----- The split search -----

  /** Both operands parse when the span [l, r] is split at an occurrence of `op` at `i`. */
  predicate SplitsAt(s: string, op: string, l: int, r: int, i: int)
    requires IsOperator(op) && 0 <= l <= r < |s|
  {
    l <= i && i + |op| <= r + 1 && Occurs(s, op, i)
    && Parse(s, l, i - 1).Some? && Parse(s, i + |op|, r).Some?
  }

  /** The reference policy: among ALL occurrences of `op` at or below `hi`, the highest one
      at which both operands parse, with those operands. */
  function HighestSplit(s: string, op: string, l: int, r: int, hi: int): Option<(Expr, Expr)>
    requires IsOperator(op) && 0 <= l <= r < |s|
    decreases hi - l + 1
  {
    if hi < l then None
    else if SplitsAt(s, op, l, r, hi) then
      Some((Parse(s, l, hi - 1).value, Parse(s, hi + |op|, r).value))
    else HighestSplit(s, op, l, r, hi - 1)
  }

  lemma {:induction false} SkipNonSplits(s: string, op: string, l: int, r: int, lo: int, hi: int)
    requires IsOperator(op) && 0 <= l <= r < |s| && lo <= hi
    requires forall p :: lo < p <= hi ==> !SplitsAt(s, op, l, r, p)
    ensures HighestSplit(s, op, l, r, hi) == HighestSplit(s, op, l, r, lo)
    decreases hi - lo
  {
    if lo < hi {
      SkipNonSplits(s, op, l, r, lo, hi - 1);
    }
  }

  /** The positions the retry window passes over between candidate `i` and the next
      candidate `j` are never splits: either `op` does not occur there, or the right operand
      would begin inside the occurrence at `i`, with an operator character. */
  lemma SkippedPositionNoSplit(s: string, op: string, l: int, r: int, i: int, p: int)
    requires IsOperator(op) && 0 <= l <= r < |s| && IsCandidate(s, op, l, r, i) && 0 <= i
    requires NextCandidate(s, op, l, i) < p <= i - 1
    ensures !SplitsAt(s, op, l, r, p)
  {
    var k := p + |op|;
    if i <= k {
      assert s[k] == s[i..i + |op|][k - i] == op[k - i];
      OperatorCharsCannotStart(op, k - i);
      BadStartFails(s, k, r);
    }
  }

  lemma {:induction false} JointFromIsHighestSplit(s: string, op: string, l: int, r: int, i: int)
    requires IsOperator(op) && 0 <= l <= r < |s| && IsCandidate(s, op, l, r, i)
    ensures JointFrom(s, op, l, r, i) == HighestSplit(s, op, l, r, i)
    decreases i + 1
  {
    if 0 <= i && !(Parse(s, l, i - 1).Some? && Parse(s, i + |op|, r).Some?) {
      var j := NextCandidate(s, op, l, i);
      JointFromIsHighestSplit(s, op, l, r, j);
      forall p | j < p <= i - 1
        ensures !SplitsAt(s, op, l, r, p)
      {
        SkippedPositionNoSplit(s, op, l, r, i, p);
      }
      SkipNonSplits(s, op, l, r, j, i - 1);
    }
  }

  /** The split search returns the operands at the highest occurrence of `op` in the span
      at which both operands parse, and fails exactly when there is no such occurrence. */
  lemma JointIsHighestSplit(s: string, op: string, l: int, r: int)
    requires IsOperator(op) && 0 <= l <= r < |s|
    ensures JointRule(s, op, l, r) == HighestSplit(s, op, l, r, r + 1 - |op|)
  {
    var i0 := Find(s, op, l, r + 1);
    JointFromIsHighestSplit(s, op, l, r, i0);
    if l <= r + 1 - |op| {
      SkipNonSplits(s, op, l, r, i0, r + 1 - |op|);
    }
  }
}
