/** What `Expression.Evaluate` computes, against an independent reference: an expression
    tree evaluated recursively, left operand first (MathParser/Expression.cs:251-276).

    A tree's postorder is a postfix list; the stack evaluator run on it gives exactly the
    tree's value, or the first exception a left-to-right evaluation of the tree meets. */
module ExpressionEval {
  import opened Wrappers
  import opened Errors
  import opened ParserTokens
  import opened Expressions

  datatype Term =
    | Leaf(token: Token)
    | Node(op: BinaryOperator, left: Term, right: Term)

  /** Leaves are operands whose variables are registered. */
  predicate TermOk(t: Term, vars: Registry) {
    match t
    case Leaf(x) => (x.Var? || x.Const?) && (x.Var? ==> x.key in vars)
    case Node(_, l, r) => TermOk(l, vars) && TermOk(r, vars)
  }

  function Postorder(t: Term): seq<Token> {
    match t
    case Leaf(x) => [x]
    case Node(op, l, r) => Postorder(l) + Postorder(r) + [BinOp(op)]
  }

  /** The reference evaluation: the left operand, then the right one, then the operator;
      a non-finite result is a `MathException` with both operands and the symbol. */
  function TermValue(t: Term, vars: Registry, pow: PowFn): Result<real, Error>
    requires TermOk(t, vars)
  {
    match t
    case Leaf(x) => EvalOperand(x, if x.Var? then vars[x.key] else None)
    case Node(op, l, r) =>
      match TermValue(l, vars, pow)
      case Failure(err) => Failure(err)
      case Success(a) =>
        match TermValue(r, vars, pow)
        case Failure(err) => Failure(err)
        case Success(b) =>
          match Apply(op, a, b, pow)
          case NonFinite => Failure(Math(a, b, [Symbol(op)]))
          case Finite(v) => Success(v)
  }

  lemma {:induction false} PostorderOk(t: Term, vars: Registry)
    requires TermOk(t, vars)
    ensures PostfixOk(Postorder(t), vars)
    ensures Height(Postorder(t)) == 1
  {
    match t
    case Leaf(x) =>
      assert Postorder(t)[..0] == [];
    case Node(op, l, r) =>
      PostorderOk(l, vars);
      PostorderOk(r, vars);
      HeightAppend(Postorder(l), Postorder(r));
      var p := Postorder(l) + Postorder(r);
      assert Postorder(t)[..|p|] == p;
  }

  lemma {:induction false} HeightAppend(a: seq<Token>, b: seq<Token>)
    ensures Height(a + b) == Height(a) + Height(b)
    decreases |b|
  {
    if b == [] {
      assert a + b == a;
    } else {
      assert (a + b)[..|a + b| - 1] == a + b[..|b| - 1];
      HeightAppend(a, b[..|b| - 1]);
    }
  }

  /** The stack evaluator runs a tree's postorder as the reference evaluation does, and
      leaves the tree's value on top of the stack it was given. */
  lemma {:induction false} EvalPostorder(t: Term, rest: seq<Token>, vars: Registry, pow: PowFn, values: seq<real>)
    requires TermOk(t, vars) && PostfixOk(rest, vars)
    requires PostfixOk(Postorder(t) + rest, vars)
    ensures EvalFrom(Postorder(t) + rest, vars, pow, values) ==
      match TermValue(t, vars, pow)
      case Failure(err) => Failure(err)
      case Success(v) => EvalFrom(rest, vars, pow, values + [v])
  {
    match t
    case Leaf(x) =>
      assert (Postorder(t) + rest)[1..] == rest;
    case Node(op, l, r) =>
      var tail := Postorder(r) + ([BinOp(op)] + rest);
      assert Postorder(t) + rest == Postorder(l) + tail;
      PostorderOk(r, vars);
      assert PostfixOk([BinOp(op)] + rest, vars);
      assert PostfixOk(tail, vars);
      EvalPostorder(l, tail, vars, pow, values);
      match TermValue(l, vars, pow)
      case Failure(_) =>
      case Success(a) =>
        EvalPostorder(r, [BinOp(op)] + rest, vars, pow, values + [a]);
        match TermValue(r, vars, pow)
        case Failure(_) =>
        case Success(b) =>
          OperatorOnTop(op, rest, vars, pow, values, a, b);
  }

  /** An operator with two values on top of the stack applies to them. */
  lemma OperatorOnTop(op: BinaryOperator, rest: seq<Token>, vars: Registry, pow: PowFn, values: seq<real>, a: real, b: real)
    requires PostfixOk(rest, vars) && PostfixOk([BinOp(op)] + rest, vars)
    ensures var x := Apply(op, a, b, pow);
      EvalFrom([BinOp(op)] + rest, vars, pow, values + [a] + [b]) ==
        if x.NonFinite? then Failure(Math(a, b, [Symbol(op)])) else EvalFrom(rest, vars, pow, values + [x.r])
  {
    var vs := values + [a] + [b];
    assert vs[|vs| - 1] == b && vs[|vs| - 2] == a && vs[..|vs| - 2] == values;
    assert ([BinOp(op)] + rest)[0] == BinOp(op) && ([BinOp(op)] + rest)[1..] == rest;
  }

  /** `Evaluate` on a list that is the postorder of a tree gives the tree's value. */
  lemma EvaluateTerm(e: Expression, t: Term, pow: PowFn)
    requires TermOk(t, e.variables) && e.postfix == Postorder(t)
    ensures Valid(e) && Evaluate(e, pow) == TermValue(t, e.variables, pow)
  {
    PostorderOk(t, e.variables);
    assert Postorder(t) + [] == Postorder(t);
    EvalPostorder(t, [], e.variables, pow, []);
  }
}
