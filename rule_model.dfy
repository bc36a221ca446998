/**
  The data of the scholarship rule evaluator: conditions, rules, their actions,
  the decision record the evaluator returns, and the comparison operators a
  condition can name.
 */
module RuleModel {

  datatype Option<+T> = None | Some(value: T)

  /** What the evaluator raises instead of returning a decision: an ordering
      comparison between an absent applicant field (Python's `None`) and a
      number, which Python rejects with a TypeError. */
  datatype EvalError = UnorderableComparison(field: string, symbol: string)

  datatype Result<+T> = Ok(value: T) | Err(error: EvalError)

  /** The operators a condition is dispatched on. A symbol other than the five
      has no branch in the evaluator; it is kept, with its text, as `Unrecognised`. */
  datatype Op = Ge | Le | Eq | Lt | Gt | Unrecognised(symbol: string)
  {
    /** The operators that order their operands; they raise on an absent field. */
    predicate IsOrdering() {
      Ge? || Le? || Lt? || Gt?
    }
  }

  /** The textual symbol of an operator, as it is written in a rule. */
  function SymbolOf(op: Op): string
  {
    match op
    case Ge => ">="
    case Le => "<="
    case Eq => "=="
    case Lt => "<"
    case Gt => ">"
    case Unrecognised(s) => s
  }

  /** The operator a condition's symbol selects: the branch the evaluator's
      chain of string comparisons takes. */
  function OpOf(symbol: string): (op: Op)
    ensures SymbolOf(op) == symbol
    ensures op.Unrecognised? <==> symbol !in {">=", "<=", "==", "<", ">"}
  {
    if symbol == ">=" then Ge
    else if symbol == "<=" then Le
    else if symbol == "==" then Eq
    else if symbol == "<" then Lt
    else if symbol == ">" then Gt
    else Unrecognised(symbol)
  }

  /** Reading an operator's symbol back gives the operator, for every operator
      the evaluator can produce from a symbol. */
  lemma OpOfSymbolOf(op: Op)
    requires op.Unrecognised? ==> op.symbol !in {">=", "<=", "==", "<", ">"}
    ensures OpOf(SymbolOf(op)) == op
  {
  }

  /** The outcome of a condition on a present applicant value `x` against the
      rule's value `v`: exact comparison; an unrecognised operator leaves the
      condition satisfied. */
  function Compare(op: Op, x: real, v: real): bool
  {
    match op
    case Ge => x >= v
    case Le => x <= v
    case Eq => x == v
    case Lt => x < v
    case Gt => x > v
    case Unrecognised(_) => true
  }

  /** The five operators are the usual numeric order: at equality the three
      non-strict ones succeed and the two strict ones fail, and otherwise each
      is the combination of strict order and equality one expects. */
  lemma CompareIsNumericOrder(x: real, v: real)
    ensures x == v ==> Compare(Ge, x, v) && Compare(Le, x, v) && Compare(Eq, x, v)
    ensures x == v ==> !Compare(Lt, x, v) && !Compare(Gt, x, v)
    ensures Compare(Ge, x, v) <==> Compare(Gt, x, v) || Compare(Eq, x, v)
    ensures Compare(Le, x, v) <==> Compare(Lt, x, v) || Compare(Eq, x, v)
    ensures Compare(Lt, x, v) <==> !Compare(Ge, x, v)
    ensures Compare(Gt, x, v) <==> !Compare(Le, x, v)
  {
  }

  /** One `(field, operator, value)` entry of a rule. */
  datatype Condition = Condition(field: string, symbol: string, value: real)

  datatype Action = Action(decision: string, reason: string)

  datatype Rule = Rule(name: string, priority: int, conditions: seq<Condition>, action: Action)

  /** The record the evaluator returns; `ruleName` is absent when no rule matched. */
  datatype Decision = Decision(ruleName: Option<string>, decision: string, reason: string)

  /** An applicant: attribute name to numeric value. */
  type Applicant = map<string, real>

  /** The no-match sentinel. */
  const NoDecision := Decision(None, "NO_DECISION", "No matching rule found for this applicant.")

  /** The decision built from a selected rule: its name and action, verbatim. */
  function DecisionFor(r: Rule): Decision
  {
    Decision(Some(r.name), r.action.decision, r.action.reason)
  }
}
