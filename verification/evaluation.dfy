/** The boundary to the expression evaluator, and the two uses the search
    makes of it: filtering a candidate through the guard conditions and
    scoring it against the two target expressions. */
module Evaluation {
  import opened Candidates

  datatype Option<T> = None | Some(value: T)

  /** What the evaluator gives back for one expression: its value, or the
      parser's error text when the expression does not compile. */
  datatype EvalResult = Value(v: real) | ParseError(message: string)

  /** The expression evaluator: an expression, evaluated with the variables
      a, b, ... bound to the candidate's numbers and the built-in constants
      available. */
  type Evaluator = (string, Candidate) -> EvalResult

  /** A malformed expression: fatal, the process reports it and exits. */
  datatype ConfigError = ConfigError(expr: string, message: string)

  /** The outcome of the guard conditions for one candidate. */
  datatype Verdict = Satisfied | Violated(index: nat) | ConditionError(error: ConfigError)

  /** The conditions from position i on, in order, stopping at the first one
      that does not evaluate to exactly 1. */
  function CheckFrom(eval: Evaluator, conditions: seq<string>, c: Candidate, i: nat): (v: Verdict)
    ensures v.Violated? ==> i <= v.index < |conditions|
    decreases |conditions| - i
  {
    if i >= |conditions| then Satisfied
    else match eval(conditions[i], c)
      case ParseError(m) => ConditionError(ConfigError(conditions[i], m))
      case Value(x) => if x != 1.0 then Violated(i) else CheckFrom(eval, conditions, c, i + 1)
  }

  /** All the conditions: a candidate passes iff every one evaluates to
      exactly 1; a rejection names the first that is a value other than 1,
      after conditions that were all 1. */
  function CheckConditions(eval: Evaluator, conditions: seq<string>, c: Candidate): (v: Verdict)
    ensures v == Satisfied <==> forall k :: 0 <= k < |conditions| ==> eval(conditions[k], c) == Value(1.0)
    ensures v.Violated? ==>
      && v.index < |conditions|
      && (forall k :: 0 <= k < v.index ==> eval(conditions[k], c) == Value(1.0))
      && eval(conditions[v.index], c).Value?
      && eval(conditions[v.index], c).v != 1.0
  {
    CheckFromMeaning(eval, conditions, c, 0);
    CheckFrom(eval, conditions, c, 0)
  }

  /** A candidate passes iff every condition evaluates to exactly 1; when it
      fails, the verdict names the first condition that is not 1, or the
      first that does not compile, and every condition before it was 1. */
  lemma {:induction false} CheckFromMeaning(eval: Evaluator, conditions: seq<string>, c: Candidate, i: nat)
    ensures var v := CheckFrom(eval, conditions, c, i);
      && (v == Satisfied <==> forall k :: i <= k < |conditions| ==> eval(conditions[k], c) == Value(1.0))
      && (v.Violated? ==>
            && i <= v.index < |conditions|
            && (forall k :: i <= k < v.index ==> eval(conditions[k], c) == Value(1.0))
            && eval(conditions[v.index], c).Value?
            && eval(conditions[v.index], c).v != 1.0)
      && (v.ConditionError? ==>
            exists k :: i <= k < |conditions|
              && (forall l :: i <= l < k ==> eval(conditions[l], c) == Value(1.0))
              && conditions[k] == v.error.expr
              && eval(conditions[k], c) == ParseError(v.error.message))
    decreases |conditions| - i
  {
    if i < |conditions| && eval(conditions[i], c) == Value(1.0) {
      CheckFromMeaning(eval, conditions, c, i + 1);
      var v := CheckFrom(eval, conditions, c, i);
      if v.ConditionError? {
        var k :| i + 1 <= k < |conditions|
          && (forall l :: i + 1 <= l < k ==> eval(conditions[l], c) == Value(1.0))
          && conditions[k] == v.error.expr
          && eval(conditions[k], c) == ParseError(v.error.message);
        assert forall l :: i <= l < k ==> eval(conditions[l], c) == Value(1.0);
      }
    }
  }

  function Abs(x: real): real {
    if x < 0.0 then -x else x
  }

  /** The score: the larger result minus the smaller, through abs. It is the
      absolute difference, and zero exactly when the results are equal. */
  function Distance(res1: real, res2: real): (d: real)
    ensures 0.0 <= d
    ensures d == res1 - res2 || d == res2 - res1
    ensures d == 0.0 <==> res1 == res2
  {
    Abs(if res1 > res2 then res1 - res2 else res2 - res1)
  }

  datatype Scoring = Scored(res1: real, res2: real, diff: real) | ExpressionError(error: ConfigError)

  /** Both target expressions evaluated on the candidate, the first one first. */
  function Score(eval: Evaluator, expr1: string, expr2: string, c: Candidate): (s: Scoring)
    ensures s.Scored? <==> eval(expr1, c).Value? && eval(expr2, c).Value?
    ensures s.Scored? ==>
      && s.res1 == eval(expr1, c).v && s.res2 == eval(expr2, c).v
      && s.diff == Distance(s.res1, s.res2)
      && 0.0 <= s.diff && (s.diff == 0.0 <==> s.res1 == s.res2)
    ensures s.ExpressionError? ==>
      if eval(expr1, c).ParseError? then s.error == ConfigError(expr1, eval(expr1, c).message)
      else s.error == ConfigError(expr2, eval(expr2, c).message)
  {
    match eval(expr1, c)
    case ParseError(m) => ExpressionError(ConfigError(expr1, m))
    case Value(r1) =>
      match eval(expr2, c)
      case ParseError(m) => ExpressionError(ConfigError(expr2, m))
      case Value(r2) => Scored(r1, r2, Distance(r1, r2))
  }
}
