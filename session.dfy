/** One run of the program on one formula: parse it with a fresh registry and, when it
    parses, enumerate its truth table over the registered variables. */
module Session {
  import opened Syntax
  import opened Grammar
  import opened GrammarFacts
  import opened Registry
  import opened Parser
  import opened TruthTable

  /** The variables of a formula's text, in alphabetical order. */
  function FormulaNames(text: string): (names: seq<char>)
    ensures StrictlySorted(names)
    ensures forall c :: c in names <==> c in Letters(StripSpaces(text))
  {
    SortedNames(Letters(StripSpaces(text)))
  }

  /** The truth table of `text`, or None when it does not parse. The table depends on the
      text alone, so two runs on the same text give the same table. */
  method Run(text: string) returns (table: Option<seq<Row>>)
    ensures table.None? <==> ParseFormula(text).None?
    ensures table.Some? ==> forall c :: c in Vars(ParseFormula(text).value) <==> c in FormulaNames(text)
    ensures table.Some? ==> |table.value| == Pow2(|FormulaNames(text)|)
    ensures table.Some? ==> forall k :: 0 <= k < |table.value| ==>
              table.value[k] == RowAt(ParseFormula(text).value, FormulaNames(text), k)
  {
    var reg := new VarRegistry();
    var e := ParseText(text, reg);
    if e.None? {
      return None;
    }
    var s := StripSpaces(text);
    assert reg.handles.Keys == Letters(s);
    ParseVars(s, 0, |s| - 1);
    assert s[0..|s|] == s;
    assert Vars(e.value) == Letters(s);
    var names := reg.Names();
    assert names == FormulaNames(text);
    var rows := Enumerate(e.value, names);
    return Some(rows);
  }
}
