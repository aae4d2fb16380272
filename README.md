# Propositional formula parser and truth-table enumerator

This project models the core of `project.py`, a command-line tool. The tool takes one
propositional formula written in infix form: lower-case variables, the constants `T` and
`F`, `~`, `&`, `|`, `->`, `<->` and brackets. It parses the formula and prints its truth
table.

- **Parsing.** The parser has no precedence table. It settles the ambiguous grammar by
  trying its rules in a fixed order on every span: brackets, a one-character terminal,
  `<->`, `->`, `|`, `&`, and last a leading `~`.
- **Split search.** The binary rules look for a split point from the right. They retry
  leftwards until both operands parse.
- **Truth table.** The enumerator numbers the 2^n assignments of the variables in
  alphabetical order. In row i, the variable at position vi gets bit n-1-vi of i. The
  tool records the formula's value under each row.

The model has these modules:

- `Syntax`: the expression tree and its evaluation.
- `Grammar`: the parser as pure functions. These are the specification of the parser.
- `GrammarFacts`: properties of the parser.
- `Registry`: the variable registry. It is a class, because the program updates its table
  of variables in place.
- `Parser`: the parser as the program runs it. These are methods that intern variables in
  the registry, with the split search as a loop. Each method is proved to compute its
  `Grammar` function. The registry gains only letters of the span, and on success it
  gains exactly the letters of the span parsed.
- `TruthTable`: the enumeration loops, proved against `RowAt`, plus properties of the rows.
- `Session`: one run from text to table.
- `Locality`: a span parses the same wherever its characters stand, so `(t)` and `~t`
  parse through `t`.
- `Findings`: the retry step of the split search as written.
- `Scenarios`: concrete formulas, rejected inputs and operator tables.
- `TextTables`: whole texts such as `a&b`, `~a` and `T&F`, from the text to the table.

The program asks an external solver whether the formula is satisfiable under a full
assignment. The model evaluates the tree directly (`Syntax.Eval`) instead.

The grammar comment at the top of the program (project.py:5-14) lists the rules but
not how they interact. The model follows the code in these points, which a reader of
that comment might not expect:

- If the interior of a bracketed span does not parse, the bracket rule fails, but the
  ladder still goes on to the other rules for the same span. `Scenarios.ParenthesisedOperands`
  shows that `(a)&(b)` parses only because of this fall-through.
- Only the space character is removed from the input. Tabs and other whitespace are kept,
  and they never parse.
- A `<->` formula is built as the conjunction of the two implications. There is no
  separate node for it.

## Model

| member | source | states |
|---|---|---|
| Syntax.IffNode | project.py:92-95 | the tree built for `x <-> y` mentions exactly the variables of x and y |
| Syntax.IffMeansEqual | project.py:95 | the conjunction of the two implications holds exactly when both sides have the same value |
| Syntax.Eval | project.py:150-170 | definition, no contract: the value of the tree under an assignment, standing for the solver's check of the formula with every variable pinned |
| Grammar.StripSpaces | project.py:136-138 | the result holds no space, and exactly the input's other characters (as a set) |
| GrammarFacts.StripSpacesCounts | project.py:138 | each character other than a space occurs in the result as often as in the input |
| GrammarFacts.StripSpacesAppend | project.py:138 | removing spaces from a concatenation concatenates the results, so the kept characters stay in their order |
| GrammarFacts.StripSpacesOfSpaces | project.py:138 | a text of spaces only becomes empty |
| Grammar.Find | project.py:64 | the search returns the highest index in the window where the operator occurs wholly inside it, or -1 when there is none |
| Grammar.NextCandidate | project.py:70 | the retry returns the highest occurrence lying wholly inside `[l, i-1)`, or -1 when there is none, so the next candidate is strictly below the failed one; this makes the split search terminate |
| Grammar.Parse | project.py:98-131 | definition, no contract: the rule ladder of `X`, failing on an empty span and trying the bracket, terminal, `<->`, `->`, `\|`, `&` and `~` rules in that order |
| Grammar.ParenRule | project.py:28-32 | definition, no contract: `(X)`, the interior's tree when the span is bracketed and the interior parses |
| Grammar.TerminalRule | project.py:36-48 | definition, no contract: a one-character span holding a lower-case letter, `T` or `F` |
| Grammar.NegateRule | project.py:52-57 | definition, no contract: `~X`, the negation of the rest of the span |
| Grammar.IffRule | project.py:93-95 | definition, no contract: `X<->X`, built as the conjunction of the two implications |
| Grammar.ImpliesRule | project.py:87-89 | definition, no contract: `X->X` |
| Grammar.DisjRule | project.py:75-77 | definition, no contract: `X\|X` |
| Grammar.ConjRule | project.py:81-83 | definition, no contract: `X&X` |
| Grammar.JointRule | project.py:61-64 | definition, no contract: the split search starting at the rightmost occurrence of the operator in the span |
| Grammar.JointFrom | project.py:65-71 | definition, no contract: the split search from a candidate leftwards, returning the operands of the first candidate at which both sides parse |
| Grammar.ParseFormula | project.py:136-139 | definition, no contract: `get_z3_expr`, spaces removed and then the span covering the rest parsed |
| GrammarFacts.StripSpacesKeeps | project.py:138 | a text without spaces is left unchanged by space removal |
| GrammarFacts.StripSpacesIdempotent | project.py:138 | removing spaces twice is the same as removing them once |
| GrammarFacts.JointOneCharacterFails | project.py:61-71 | no binary rule applies to a one-character span |
| GrammarFacts.SingleCharacter | project.py:36-48 | a one-character span parses to its variable for a lower-case letter, to true for `T`, to false for `F`, and fails for every other character |
| GrammarFacts.BadStartFails | project.py:98-131 | a span whose first character is not `(`, `~`, a letter, `T` or `F` never parses |
| GrammarFacts.BadStartJointFails | project.py:61-71 | no split of such a span succeeds, from any candidate |
| GrammarFacts.BadEndFails | project.py:98-131 | a span whose last character is not `)`, a letter, `T` or `F` never parses |
| GrammarFacts.BadEndJointFails | project.py:61-71 | no split of such a span succeeds, from any candidate |
| GrammarFacts.EmptyFormulaFails | project.py:100-101 | a text made only of spaces is rejected, because the empty span fails |
| GrammarFacts.LeadingOperatorFails | project.py:70 | with the corrected retry, a formula that begins with a binary operator is rejected; the program as written rejects it only when nothing but spaces follows the operator, and otherwise never returns (see Findings) |
| GrammarFacts.TrailingOperatorFails | project.py:136-139 | a formula that ends with a binary operator is rejected; when it also begins with an operator and is longer than it, this holds only with the corrected retry of project.py:70 |
| GrammarFacts.ParenKeepsInterior | project.py:27-32 | a bracketed span whose interior parses is that interior |
| GrammarFacts.ParseVars | project.py:36-43 | a successful parse mentions exactly the variable letters of its span |
| GrammarFacts.JointVars | project.py:61-71 | the two operands of a successful split together mention exactly the letters of the span |
| GrammarFacts.OperandLetters | project.py:66-67 | the letters of a span are those of its two operands, because operator tokens hold no letters |
| GrammarFacts.SkipNonSplits | project.py:61-71 | skipping positions where no split succeeds does not change the highest split |
| GrammarFacts.SkippedPositionNoSplit | project.py:70 | no position skipped by the retry window could have given a split |
| GrammarFacts.JointFromIsHighestSplit | project.py:61-71 | the search from any candidate finds the highest position at or below it where both operands parse |
| GrammarFacts.JointIsHighestSplit | project.py:61-71 | the split search returns the rightmost split at which both operands parse, with those operands |
| Locality.FindLocal | project.py:64 | the search over a window finds the same occurrence, shifted, when the window's characters are moved by any offset |
| Locality.ParseLocal | project.py:98-131 | a span parses to the same tree wherever its characters stand: only the characters of the span matter, not its position or the text around it |
| Locality.JointRuleLocal | project.py:61-64 | the split search over a moved span finds the same operands |
| Locality.JointFromLocal | project.py:65-71 | the split search from a moved candidate finds the same operands, and the moved candidate is a candidate of the moved span |
| Locality.BracketedFormula | project.py:27-32 | the text `(t)` parses to the same formula as `t`, for every text `t` without spaces that parses |
| Locality.NegatedSpan | project.py:51-57 | a span that starts with `~` and whose rest parses always parses; when no binary rule splits it, its tree is the negation of the rest |
| Locality.NegatedFormula | project.py:51-57 | for every text `t` without spaces that parses, the text `~t` parses; its `~` rule gives the negation of `t`'s formula, and that is the result when no binary rule splits `~t` first |
| Registry.SortedNames | project.py:152 | the registered names are listed strictly increasing, each exactly once |
| Registry.VarRegistry.constructor | project.py:18 | the registry starts empty |
| Registry.VarRegistry.Intern | project.py:40-43 | returns the variable's handle and stores it if new; a known name returns the stored handle and leaves the registry unchanged |
| Registry.VarRegistry.Names | project.py:152 | the registered names in alphabetical order, exactly the registered ones |
| Parser.ParseSpan | project.py:98-131 | the ladder computes `Grammar.Parse`; the registry gains only letters of the span, and all of them on success |
| Parser.ParseParen | project.py:27-32 | computes the bracket rule, with the same registry bounds |
| Parser.ParseTerminal | project.py:35-48 | computes the terminal rule, interning a variable when it is one |
| Parser.ParseNegation | project.py:51-57 | computes the `~` rule |
| Parser.ParseIff | project.py:92-95 | computes the `<->` rule |
| Parser.ParseImplies | project.py:86-89 | computes the `->` rule |
| Parser.ParseDisj | project.py:74-77 | computes the `\|` rule |
| Parser.ParseConj | project.py:80-83 | computes the `&` rule |
| Parser.Joint | project.py:61-71 | the split-search loop computes `Grammar.JointRule`, so it returns the rightmost split where both operands parse |
| Parser.SplitAt | project.py:66-69 | parses both operands of one candidate and pairs them only when both parse |
| Parser.ParseText | project.py:136-139 | parsing a text computes `Grammar.ParseFormula`; on success the registry gains exactly the text's letters |
| TruthTable.Enumerate | project.py:159-173 | returns 2^n rows, and row k is the row of assignment k |
| TruthTable.RowAt | project.py:162-170 | definition, no contract: the row of number k, the bits of k over the names and the formula's value under them |
| TruthTable.ComputeRow | project.py:162-170 | the inner loop gives position vi the bit n-1-vi of i, and the row's result is the formula's value under that assignment |
| TruthTable.BitsAt | project.py:165-166 | the value at position vi of row i is bit n-1-vi of i, the test `i & 2^(n-vi-1)` |
| TruthTable.FromBitsOfBits | project.py:157-161 | reading the bits of a row number back gives that number |
| TruthTable.BitsOfFromBits | project.py:157-161 | every assignment is the row of its own binary number |
| TruthTable.EveryAssignmentOccurs | project.py:160-161 | every assignment of the n variables occurs among the 2^n rows |
| TruthTable.RowsDistinct | project.py:160-161 | no assignment occurs twice |
| TruthTable.RowsInLexOrder | project.py:157-158 | rows come in lexicographic order with false before true (000, 001, 010, ...) |
| TruthTable.FirstRowAllFalse | project.py:157-158 | the first row gives every variable false |
| TruthTable.LastRowAllTrue | project.py:157-158 | the last row gives every variable true |
| TruthTable.AssignmentAt | project.py:168-169 | the assignment built from a row gives each name the value at its position |
| TruthTable.RowAssignment | project.py:164-169 | in row k, the variable at position vi is assigned bit n-1-vi of k |
| Session.FormulaNames | project.py:152 | the formula's variables, strictly sorted, exactly the letters of the text |
| Session.Run | project.py:185-189 | a table exists exactly when the text parses; it has 2^n rows over the formula's variables in alphabetical order, and row k is the row of assignment k |
| Findings.NextCandidateAsWritten | project.py:70 | the retry as written agrees with the corrected retry whenever the failed candidate is not at index 0 |
| Findings.SliceRFind | project.py:70 | the search with slice-style bounds returns the highest occurrence inside `[start, e)`, where e is the end read as a Python slice bound (negative counts from the end of the string, out of range is clamped), or -1 when there is none |
| Findings.RetryAtZeroNeverEnds | project.py:70 | with a candidate at index 0, the retry window `[0, -1)` stands for `[0, len-1)`, so the retry as written returns a candidate again, never -1 |
| Findings.LeadingAmpersandRepeats | project.py:64-70 | on `&a` the first candidate fails, and the retry as written returns the same candidate, while the corrected retry returns -1 |
| Findings.AmpersandChainLeavesSpan | project.py:64-70 | on `&a&b`, inside the span `&a`, the retry as written returns the `&` at index 2, which lies outside the span, while the corrected retry returns -1 |
| Scenarios.LetterImplication | project.py:86-89 | `x->y` for letters x, y parses to the implication of the two variables |
| Scenarios.ChainedImplication | project.py:64-70 | `x->y->z` splits at its rightmost `->` |
| Scenarios.ChainedImpliesGroupsLeft | project.py:61-71 | chained implications group to the left |
| Scenarios.BracketedLetter | project.py:27-32 | `(x)` parses to the variable x |
| Scenarios.LetterThenClose | project.py:98-131 | `x)` has no parse |
| Scenarios.InteriorHasNoConjunction | project.py:64-70 | the only `&` of `x)&(y` gives no split, and the retry finds no other |
| Scenarios.InteriorFails | project.py:98-131 | `x)&(y` has no parse |
| Scenarios.BracketedConjunction | project.py:80-83 | `(x)&(y)` splits at its `&` into the two bracketed letters |
| Scenarios.BracketRuleFallsThrough | project.py:27-32 | the bracket rule fails on `(x)&(y)`, and the ladder goes on to the conjunction |
| Scenarios.ParenthesisedOperands | project.py:103-125 | the formula `(x)&(y)` parses to the conjunction of the two variables |
| Scenarios.TerminalConjunction | project.py:80-83 | `x&y` for one-character terminals x and y parses to their conjunction |
| Scenarios.TerminalDisjunction | project.py:74-77 | `x\|y` for one-character terminals parses to their disjunction |
| Scenarios.TerminalBiconditional | project.py:92-95 | `x<->y` for one-character terminals parses to the conjunction of the two implications |
| Scenarios.NegatedTerminal | project.py:51-57 | `~x` for a one-character terminal parses to its negation |
| Scenarios.MalformedInputs | project.py:70 | `a&` and `~` are rejected by the ladder; `&a` is rejected only with the corrected retry, and the program as written loops on it |
| Scenarios.UnclosedBracket | project.py:98-131 | `(x` has no parse |
| Scenarios.EmptyBrackets | project.py:27-32 | `()` has no parse |
| Scenarios.NegationIsNotInfix | project.py:51-57 | `x~y` has no parse |
| Scenarios.TwoVariableOrder | project.py:157-158 | the four rows over two variables are FF, FT, TF, TT |
| Scenarios.TwoVariableRows | project.py:161-170 | the table over two names, row by row |
| Scenarios.NegationTable | project.py:51-57 | `~` over one variable is true in row 0 and false in row 1 |
| Scenarios.ConstantTable | project.py:157-170 | row 0 of the table over no names has no values and holds the formula's value (the row count, 2^0 = 1, is `TextTables.NoLettersOneRow`) |
| Scenarios.ConjunctionTable | project.py:80-83 | `&` is true only in the last row |
| Scenarios.DisjunctionTable | project.py:74-77 | `\|` is false only in the first row |
| Scenarios.ImplicationTable | project.py:86-89 | `->` is false only where the first variable is true and the second false |
| Scenarios.BiconditionalTable | project.py:92-95 | `<->` is true exactly where the two variables agree |
| TextTables.FormulaIsSpan | project.py:136-139 | a text without spaces is parsed as the span that covers it |
| TextTables.PairNames | project.py:152 | the variables of a text `x`, operator, `y` with letters x < y are listed as x, y |
| TextTables.ConjunctionText | project.py:80-83 | the text `x&y` parses to the conjunction, its table is over x, y, and it is true only in the last row |
| TextTables.DisjunctionText | project.py:74-77 | the text `x\|y` parses to the disjunction, and it is false only in the first row |
| TextTables.ImplicationText | project.py:86-89 | the text `x->y` parses to the implication, and it is false only where x is true and y false |
| TextTables.BiconditionalText | project.py:92-95 | the text `x<->y` parses to the conjunction of the two implications, and it is true exactly where x and y agree |
| TextTables.NegationText | project.py:51-57 | the text `~x` parses to the negation of x, with the two rows F then T giving true then false |
| TextTables.NoLettersOneRow | project.py:152-160 | a text without letters has no variables, so its table has 2^0 = 1 row |
| TextTables.ConstantConjunctionText | project.py:80-83 | a conjunction of the constants `T` and `F`, such as `T&F`, has one row, holding the conjunction of the two constants |

## Left out

- Command-line handling, printing, `bool_chr` and exit codes (project.py:142-195) are not modelled. `Session.Run` stands for the path from the argument to the table.
- The external solver is not modelled. A row's result is `Syntax.Eval` of the tree under the row's assignment. This is the value the solver's satisfiability check reports for a fully assigned formula.
- The program keeps its variable table in a module-level dictionary, shared between calls. The model gives each run a fresh `Registry.VarRegistry` (see `Session.Run`). A second formula parsed in the same process would list the first formula's variables as well; the model does not capture this.
- `str.islower` also accepts non-ASCII lower-case letters. The model accepts only `a` to `z`.
- Parser.ParseSpan: after a failed parse, the contract bounds the registry (it gains only letters of the span). It does not say which letters were interned along the failed attempts.
- The same bound applies to Parser.Joint, Parser.SplitAt and the other rule methods after a failure.
- Parser.Joint: the model's retry reads the window end literally (an empty window when i is 0 or 1). The program as written never returns on any text that, once spaces are removed, begins with one of `<->`, `->`, `\|` or `&` and is longer than that token: it either retries the same candidate forever or recurses on the same span. The model proves the step behind this (Findings.RetryAtZeroNeverEnds, Findings.AmpersandChainLeavesSpan); the statement about the whole program is argued from that step and not proved. See Findings.
- CPython limits the depth of recursion, so `X` raises RecursionError on deeply nested input, such as several hundred `~` in a row. The model has no such limit.

## Findings

| source | as written | input that shows it | evidently intended | confidence | as-written member | corrected member |
|---|---|---|---|---|---|---|
| project.py:70 | the retry `rfind(joiner, l, i-1)` passes a window end of -1 when the failed candidate is at index 0, and a negative end counts from the end of the string, so the window is `[0, len-1)`; it still holds the candidate at 0, which is returned again | `&a` and `\|a`: the candidate at 0 has an empty left operand, and the loop retries it forever; in general, every text that begins with an operator token and is longer than it never returns | the retry searches only strictly to the left of the failed candidate, so the loop ends and the rule fails | high, not executed | Findings.LeadingAmpersandRepeats | Grammar.NextCandidate |
| project.py:70 | the same window `[0, len-1)` reaches past the span being parsed, so the retry can return a candidate outside it | `&a&b`: inside the span `&a` the retry returns the `&` at index 2, whose left operand is `&a` again, so `X` recurses on the same span until Python raises RecursionError | the retry stays inside the span and left of the failed candidate | high, not executed | Findings.AmpersandChainLeavesSpan | Grammar.NextCandidate |
