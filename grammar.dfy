/** The span parser as pure functions: the rule ladder of `X` and its helpers, with the
    registry side effect left to the imperative parser in module Parser. A span is the
    closed index range [l, r] of a string from which spaces were removed; l = r + 1 is
    the empty span. */
module Grammar {
  import opened Syntax

  /** The binary operator tokens, in the order their rules are tried. */
  predicate IsOperator(op: string) {
    op == "<->" || op == "->" || op == "|" || op == "&"
  }

  /** A character with which some formula can begin. */
  predicate IsStartChar(c: char) {
    c == '(' || c == '~' || IsTerminalChar(c)
  }

  /** A character with which some formula can end. */
  predicate IsEndChar(c: char) {
    c == ')' || IsTerminalChar(c)
  }

  /** The variable letters occurring in a string. */
  function Letters(t: string): (vs: set<char>)
    ensures forall c :: c in vs ==> IsLower(c)
  {
    if t == [] then {} else (if IsLower(t[0]) then {t[0]} else {}) + Letters(t[1..])
  }

  /** The input with every space character removed (other whitespace is kept). */
  function StripSpaces(text: string): (s: string)
    ensures ' ' !in s
    ensures forall c :: c in s <==> c in text && c != ' '
  {
    if text == [] then []
    else (if text[0] == ' ' then [] else [text[0]]) + StripSpaces(text[1..])
  }

  /** `sub` occurs in `s` at index `i`. */
  predicate Occurs(s: string, sub: string, i: int) {
    0 <= i && i + |sub| <= |s| && s[i..i + |sub|] == sub
  }

  /** The right-to-left substring search: the highest `i` with `lo <= i` and
      `i + |sub| <= end` at which `sub` occurs, or -1 when there is none. The window end is
      taken literally, so a window that ends at or before `lo` holds no occurrence. */
  function Find(s: string, sub: string, lo: nat, end: int): (i: int)
    requires |sub| > 0 && end <= |s|
    ensures i == -1 || (lo <= i && i + |sub| <= end && Occurs(s, sub, i))
    ensures forall j :: i < j && lo <= j && j + |sub| <= end ==> !Occurs(s, sub, j)
    decreases end
  {
    if end - |sub| < lo then -1
    else if s[end - |sub|..end] == sub then end - |sub|
    else Find(s, sub, lo, end - 1)
  }

  /** Where the split search retries after the candidate `i` failed: the highest occurrence
      that ends before index `i - 1`, so the next candidate is strictly smaller. */
  function NextCandidate(s: string, op: string, l: nat, i: nat): (j: int)
    requires |op| > 0 && i <= |s|
    ensures j < i
    ensures j == -1 || (l <= j && j + |op| <= i - 1 && Occurs(s, op, j))
    ensures forall p :: j < p && l <= p && p + |op| <= i - 1 ==> !Occurs(s, op, p)
  {
    Find(s, op, l, i - 1)
  }

  /** A valid candidate for the split search of `op` over [l, r]: -1 (no candidate left) or
      an occurrence of the operator token lying wholly inside the span. */
  predicate IsCandidate(s: string, op: string, l: int, r: int, i: int) {
    i == -1 || (l <= i && i + |op| <= r + 1 && Occurs(s, op, i))
  }

  /** The parse of the span [l, r]: the first rule of the ladder that succeeds. */
  function Parse(s: string, l: int, r: int): Option<Expr>
    requires 0 <= l <= r + 1 <= |s|
    decreases r - l + 1, 3, 0
  {
    if l > r then None
    else
      var p := ParenRule(s, l, r);
      if p.Some? then p else
      var t := TerminalRule(s, l, r);
      if t.Some? then t else
      var q := IffRule(s, l, r);
      if q.Some? then q else
      var m := ImpliesRule(s, l, r);
      if m.Some? then m else
      var d := DisjRule(s, l, r);
      if d.Some? then d else
      var c := ConjRule(s, l, r);
      if c.Some? then c else
      NegateRule(s, l, r)
  }

  /** `(X)`: the interior of a bracketed span. */
  function ParenRule(s: string, l: int, r: int): Option<Expr>
    requires 0 <= l <= r < |s|
    decreases r - l + 1, 2, 0
  {
    if s[l] == '(' && s[r] == ')' then Parse(s, l + 1, r - 1) else None
  }

  /** A one-character span: a variable, `T` or `F`. */
  function TerminalRule(s: string, l: int, r: int): Option<Expr>
    requires 0 <= l <= r < |s|
  {
    if r != l then None
    else if IsLower(s[r]) then Some(Var(s[r]))
    else if s[r] == 'T' then Some(Const(true))
    else if s[r] == 'F' then Some(Const(false))
    else None
  }

  /** `~X`. */
  function NegateRule(s: string, l: int, r: int): Option<Expr>
    requires 0 <= l <= r < |s|
    decreases r - l + 1, 2, 0
  {
    if s[l] == '~' then
      match Parse(s, l + 1, r)
      case Some(x) => Some(Not(x))
      case None => None
    else None
  }

  /** `X<->X`. */
  function IffRule(s: string, l: int, r: int): Option<Expr>
    requires 0 <= l <= r < |s|
    decreases r - l + 1, 2, 0
  {
    match JointRule(s, "<->", l, r)
    case Some((x, y)) => Some(IffNode(x, y))
    case None => None
  }

  /** `X->X`. */
  function ImpliesRule(s: string, l: int, r: int): Option<Expr>
    requires 0 <= l <= r < |s|
    decreases r - l + 1, 2, 0
  {
    match JointRule(s, "->", l, r)
    case Some((x, y)) => Some(Implies(x, y))
    case None => None
  }

  /** `X|X`. */
  function DisjRule(s: string, l: int, r: int): Option<Expr>
    requires 0 <= l <= r < |s|
    decreases r - l + 1, 2, 0
  {
    match JointRule(s, "|", l, r)
    case Some((x, y)) => Some(Or(x, y))
    case None => None
  }

  /** `X&X`. */
  function ConjRule(s: string, l: int, r: int): Option<Expr>
    requires 0 <= l <= r < |s|
    decreases r - l + 1, 2, 0
  {
    match JointRule(s, "&", l, r)
    case Some((x, y)) => Some(And(x, y))
    case None => None
  }

  /** The split search for `op` over [l, r], starting at the rightmost occurrence. */
  function JointRule(s: string, op: string, l: int, r: int): Option<(Expr, Expr)>
    requires IsOperator(op) && 0 <= l <= r < |s|
    decreases r - l + 1, 1, 0
  {
    JointFrom(s, op, l, r, Find(s, op, l, r + 1))
  }

  /** The split search from candidate `i` leftwards: the operands of the first candidate
      at which both sides parse. */
  function JointFrom(s: string, op: string, l: int, r: int, i: int): Option<(Expr, Expr)>
    requires IsOperator(op) && 0 <= l <= r < |s|
    requires IsCandidate(s, op, l, r, i)
    decreases r - l + 1, 0, i + 1
  {
    if i < 0 then None
    else
      var x := Parse(s, l, i - 1);
      var y := Parse(s, i + |op|, r);
      if x.Some? && y.Some? then Some((x.value, y.value))
      else JointFrom(s, op, l, r, NextCandidate(s, op, l, i))
  }

  /** The whole formula: spaces removed, then the span covering the rest. */
  function ParseFormula(text: string): Option<Expr> {
    var s := StripSpaces(text);
    Parse(s, 0, |s| - 1)
  }
}
