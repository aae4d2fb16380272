/** The expression tree built by the parser and its meaning under an assignment. */
module Syntax {

  datatype Option<+T> = None | Some(value: T)

  /** A parsed propositional formula. A `<->` formula is built as the conjunction of
      the two implications, so there is no separate biconditional node. */
  datatype Expr =
    | Var(name: char)
    | Const(value: bool)
    | Not(operand: Expr)
    | And(left: Expr, right: Expr)
    | Or(left: Expr, right: Expr)
    | Implies(left: Expr, right: Expr)

  /** A truth value for each variable name. */
  type Assignment = map<char, bool>

  /** The characters that name a variable: lower-case ASCII letters. */
  predicate IsLower(c: char) {
    'a' <= c <= 'z'
  }

  /** The characters accepted by the one-character rule. */
  predicate IsTerminalChar(c: char) {
    IsLower(c) || c == 'T' || c == 'F'
  }

  /** The variables an expression mentions. */
  function Vars(e: Expr): set<char> {
    match e
    case Var(c) => {c}
    case Const(_) => {}
    case Not(x) => Vars(x)
    case And(x, y) => Vars(x) + Vars(y)
    case Or(x, y) => Vars(x) + Vars(y)
    case Implies(x, y) => Vars(x) + Vars(y)
  }

  /** The value of `e` when every variable it mentions is given a value by `a`. */
  function Eval(e: Expr, a: Assignment): bool
    requires Vars(e) <= a.Keys
  {
    match e
    case Var(c) => a[c]
    case Const(b) => b
    case Not(x) => !Eval(x, a)
    case And(x, y) => Eval(x, a) && Eval(y, a)
    case Or(x, y) => Eval(x, a) || Eval(y, a)
    case Implies(x, y) => !Eval(x, a) || Eval(y, a)
  }

  /** The tree built for `x <-> y`. */
  function IffNode(x: Expr, y: Expr): (e: Expr)
    ensures Vars(e) == Vars(x) + Vars(y)
  {
    And(Implies(x, y), Implies(y, x))
  }

  /** A `<->` node holds exactly when both sides have the same value. */
  lemma IffMeansEqual(x: Expr, y: Expr, a: Assignment)
    requires Vars(x) + Vars(y) <= a.Keys
    ensures Eval(IffNode(x, y), a) == (Eval(x, a) == Eval(y, a))
  {
  }
}
