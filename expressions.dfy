/**
 * The part of the expression tree that access-path construction inspects.
 *
 * A predicate handed to a range variable is either the constant FALSE, a
 * comparison of one of the range's columns against a value expression, the
 * NOT (column IS NULL) guard built for end-bounded scans, or a conjunction.
 * Evaluation of comparisons is left to an oracle (`Evaluator`); only the
 * logical structure that the range code builds itself is interpreted here.
 */
module Expressions {
  import opened Values

  /** Operator codes (OpTypes) that the range code reads. `Unset` is the
      value an `int` field holds before anything is assigned to it. */
  datatype OpType =
    | Unset
    | Equal
    | Greater
    | GreaterEqual
    | Smaller
    | SmallerEqual
    | IsNull
    | Not
    | Max
    | AndOp
    | ValueOp
    | OtherOp

  datatype Expr =
    | /** Expression.EXPR_FALSE */
      ExprFalse
    | /** `column op operand`. `operand` identifies the right-hand value
          expression; `indexable` says whether getIndexableExpression accepts
          the predicate for this range; `likeEnd` is present exactly when the
          comparison was derived from LIKE (exprSubType == LIKE), and holds
          the derived end bound (nodes[2]). */
      Comparison(op: OpType, column: int, operand: nat, indexable: bool,
                 isTerminal: bool, likeEnd: Option<Expr>)
    | /** NOT (column IS NULL), as built by ExpressionLogical.newNotNullCondition */
      NotNull(column: int)
    | Conj(left: Expr, right: Expr)

  /** Expression.getType() */
  function TypeOf(e: Expr): OpType {
    match e
    case ExprFalse => ValueOp
    case Comparison(op, _, _, _, _, _) => op
    case NotNull(_) => Not
    case Conj(_, _) => AndOp
  }

  /** getLeftNode().getColumnIndex() of a column predicate; -1 for the others. */
  function LeftColumn(e: Expr): int {
    match e
    case Comparison(_, col, _, _, _, _) => col
    case NotNull(col) => col
    case _ => -1
  }

  /** getIndexableExpression(rangeVar) != null */
  predicate Indexable(e: Expr) {
    e.Comparison? && e.indexable
  }

  /** ExpressionLogical.isTerminal */
  predicate IsTerminal(e: Expr) {
    e.Comparison? && e.isTerminal
  }

  /** ExpressionLogical.andExpressions: a null operand is the identity and
      FALSE absorbs the other operand. */
  function AndExpressions(a: Option<Expr>, b: Option<Expr>): (r: Option<Expr>)
  {
    if a.None? then b
    else if b.None? then a
    else if a.value == ExprFalse || b.value == ExprFalse then Some(ExprFalse)
    else Some(Conj(a.value, b.value))
  }

  /** Conjunction of every present entry of `xs`, folded left onto `acc`
      (the loops of addIndexCondition and reverseIndexCondition). */
  function AndAll(acc: Option<Expr>, xs: seq<Option<Expr>>): Option<Expr>
    decreases |xs|
  {
    if xs == [] then acc else AndExpressions(AndAll(acc, xs[..|xs| - 1]), xs[|xs| - 1])
  }

  /** The evaluation context of testCondition: the current rows of the
      enclosing ranges and the current row of this range. */
  datatype Env = Env(outer: seq<seq<Value>>, current: seq<Value>)

  /** What getFirstRow learns about a bound's value expression: the value to
      put in the search key (already converted when it is in range) and the
      result of compareToTypeRange (0 when the types agree). */
  datatype BoundValue = BoundValue(range: int, value: Value)

  /** The expression evaluator, which is not part of this model: `atom`
      decides a comparison or a NOT NULL guard in a context; `bound` evaluates
      the right-hand side of a start bound against the enclosing rows. */
  datatype Evaluator = Evaluator(
    atom: (Expr, Env) -> bool,
    bound: (Expr, seq<seq<Value>>) -> BoundValue)

  /** Expression.testCondition: FALSE and AND are interpreted, everything
      else is asked of the evaluator. */
  function Holds(e: Expr, ev: Evaluator, env: Env): bool {
    match e
    case ExprFalse => false
    case Conj(l, r) => Holds(l, ev, env) && Holds(r, ev, env)
    case _ => ev.atom(e, env)
  }

  /** An optional condition as the iterators test it: a null condition passes. */
  predicate Passes(c: Option<Expr>, ev: Evaluator, env: Env) {
    c.None? || Holds(c.value, ev, env)
  }

  /** andExpressions means logical AND, with null read as TRUE. */
  lemma AndExpressionsMeaning(a: Option<Expr>, b: Option<Expr>, ev: Evaluator, env: Env)
    ensures Passes(AndExpressions(a, b), ev, env) == (Passes(a, ev, env) && Passes(b, ev, env))
  {
    if a.Some? && b.Some? && a.value != ExprFalse && b.value != ExprFalse {
      assert AndExpressions(a, b) == Some(Conj(a.value, b.value));
    }
  }

  /** andExpressions yields FALSE exactly when an operand is FALSE, and null
      only when both operands are null. */
  lemma AndExpressionsFalse(a: Option<Expr>, b: Option<Expr>)
    ensures AndExpressions(a, b) == Some(ExprFalse) <==> a == Some(ExprFalse) || b == Some(ExprFalse)
    ensures AndExpressions(a, b).None? <==> a.None? && b.None?
  {
  }

  /** The folded conjunction holds exactly when the start value and every
      entry hold. */
  lemma {:induction false} AndAllMeaning(acc: Option<Expr>, xs: seq<Option<Expr>>, ev: Evaluator, env: Env)
    ensures Passes(AndAll(acc, xs), ev, env) <==>
            Passes(acc, ev, env) && forall i :: 0 <= i < |xs| ==> Passes(xs[i], ev, env)
    decreases |xs|
  {
    if xs != [] {
      var init := xs[..|xs| - 1];
      AndAllMeaning(acc, init, ev, env);
      AndExpressionsMeaning(AndAll(acc, init), xs[|xs| - 1], ev, env);
      assert forall i :: 0 <= i < |init| ==> init[i] == xs[i];
    }
  }
}
